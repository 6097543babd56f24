/** The file system as the tool uses it: paths to CSV files, each seen as its data rows.
    Opening a file for writing replaces its whole content; nothing is ever deleted. */
module Files {
  import opened Rows

  /** A path as its components; `[]` is the working directory. */
  type Path = seq<string>

  /** The CSV files present and their rows. */
  type Disk = map<Path, seq<Row>>

  /** `Path(p).parent`: the path without its last component. */
  function Parent(p: Path): (r: Path)
    ensures p != [] ==> p == r + [p[|p| - 1]]
    ensures p == [] ==> r == []
  {
    if p == [] then [] else p[..|p| - 1]
  }

  /** Opening `path` with mode "w" and writing `rows` under the four headers. */
  datatype FileWrite = FileWrite(path: Path, rows: seq<Row>)

  /** The disk after performing the writes in order. */
  function Apply(disk: Disk, ws: seq<FileWrite>): Disk {
    if ws == [] then disk
    else
      var last := ws[|ws| - 1];
      Apply(disk, ws[..|ws| - 1])[last.path := last.rows]
  }

  /** Writing never deletes a file. */
  lemma {:induction false} ApplyKeepsFiles(disk: Disk, ws: seq<FileWrite>, p: Path)
    requires p in disk
    ensures p in Apply(disk, ws)
  {
    if ws != [] {
      ApplyKeepsFiles(disk, ws[..|ws| - 1], p);
    }
  }

  /** A file that no write names is left exactly as it was, present or absent. */
  lemma {:induction false} ApplyUntouched(disk: Disk, ws: seq<FileWrite>, p: Path)
    requires forall i :: 0 <= i < |ws| ==> ws[i].path != p
    ensures p in Apply(disk, ws) <==> p in disk
    ensures p in disk ==> Apply(disk, ws)[p] == disk[p]
  {
    if ws != [] {
      ApplyUntouched(disk, ws[..|ws| - 1], p);
    }
  }

  /** A file holds what the last write naming it wrote. */
  lemma {:induction false} ApplyLastWins(disk: Disk, ws: seq<FileWrite>, i: nat)
    requires i < |ws|
    requires forall j :: i < j < |ws| ==> ws[j].path != ws[i].path
    ensures ws[i].path in Apply(disk, ws) && Apply(disk, ws)[ws[i].path] == ws[i].rows
  {
    if i < |ws| - 1 {
      ApplyLastWins(disk, ws[..|ws| - 1], i);
    }
  }

  /** Performing two batches of writes one after the other is performing their concatenation. */
  lemma {:induction false} ApplyConcat(disk: Disk, a: seq<FileWrite>, b: seq<FileWrite>)
    ensures Apply(disk, a + b) == Apply(Apply(disk, a), b)
  {
    if b == [] {
      assert a + b == a;
    } else {
      assert (a + b)[..|a + b| - 1] == a + b[..|b| - 1];
      ApplyConcat(disk, a, b[..|b| - 1]);
    }
  }

  /** The index of the first write whose `open` raises, `|ws|` when none does.
      `writable` stands for the operating system's answer to each `open`. */
  function FirstFailing(ws: seq<FileWrite>, writable: Path -> bool): (n: nat)
    ensures n <= |ws|
    ensures forall i :: 0 <= i < n ==> writable(ws[i].path)
    ensures n < |ws| ==> !writable(ws[n].path)
  {
    if ws == [] || !writable(ws[0].path) then 0
    else 1 + FirstFailing(ws[1..], writable)
  }

  /** Where a batch made of two parts stops. */
  lemma {:induction false} FirstFailingConcat(a: seq<FileWrite>, b: seq<FileWrite>, writable: Path -> bool)
    ensures FirstFailing(a + b, writable)
         == if FirstFailing(a, writable) < |a| then FirstFailing(a, writable)
            else |a| + FirstFailing(b, writable)
  {
    if a != [] {
      assert (a + b)[0] == a[0];
      assert (a + b)[1..] == a[1..] + b;
      FirstFailingConcat(a[1..], b, writable);
    } else {
      assert a + b == b;
    }
  }

  /** Writing the files in order until an `open` raises: the new disk, and whether every
      write was performed. */
  function Run(disk: Disk, ws: seq<FileWrite>, writable: Path -> bool): (Disk, bool)
    decreases |ws|
  {
    if ws == [] then (disk, true)
    else if !writable(ws[0].path) then (disk, false)
    else Run(disk[ws[0].path := ws[0].rows], ws[1..], writable)
  }

  /** The run performs exactly the writes before the first failing one. */
  lemma {:induction false} RunIsApply(disk: Disk, ws: seq<FileWrite>, writable: Path -> bool)
    ensures var n := FirstFailing(ws, writable);
      Run(disk, ws, writable) == (Apply(disk, ws[..n]), n == |ws|)
    decreases |ws|
  {
    if ws != [] && writable(ws[0].path) {
      var w := ws[0];
      RunIsApply(disk[w.path := w.rows], ws[1..], writable);
      var n := FirstFailing(ws, writable);
      ApplyConcat(disk, [w], ws[1..][..n - 1]);
      assert ws[..n] == [w] + ws[1..][..n - 1];
      assert Apply(disk, [w]) == disk[w.path := w.rows] by {
        assert [w][..0] == [];
      }
    }
  }

  /** Two batches in turn: the second runs only when the first completed. */
  lemma {:induction false} RunConcat(disk: Disk, a: seq<FileWrite>, b: seq<FileWrite>, writable: Path -> bool)
    ensures Run(disk, a + b, writable)
         == if Run(disk, a, writable).1 then Run(Run(disk, a, writable).0, b, writable)
            else Run(disk, a, writable)
    decreases |a|
  {
    if a == [] {
      assert a + b == b;
    } else {
      assert (a + b)[0] == a[0];
      assert (a + b)[1..] == a[1..] + b;
      if writable(a[0].path) {
        RunConcat(disk[a[0].path := a[0].rows], a[1..], b, writable);
      }
    }
  }

  /** However far a run gets, a file that no write names is left as it was. */
  lemma RunUntouched(disk: Disk, ws: seq<FileWrite>, writable: Path -> bool, p: Path)
    requires forall j :: 0 <= j < |ws| ==> ws[j].path != p
    ensures var d := Run(disk, ws, writable).0;
      (p in d <==> p in disk) && (p in disk ==> d[p] == disk[p])
  {
    RunIsApply(disk, ws, writable);
    ApplyUntouched(disk, ws[..FirstFailing(ws, writable)], p);
  }

  /** A run whose first `open` raises writes nothing and fails. */
  lemma RunFailsFirst(disk: Disk, ws: seq<FileWrite>, writable: Path -> bool)
    requires ws != [] && !writable(ws[0].path)
    ensures Run(disk, ws, writable) == (disk, false)
  {
  }
}
