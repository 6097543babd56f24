/** The school record every part of the tool works on: the four columns `Provincia`,
    `Colegio`, `Cantidad de Estudiantes` and `Año de Creación`. */
module Schools {
  import opened Options
  import opened Text

  datatype School = School(province: string, name: string, students: int, year: int)

  /** The province of a record, the key of the grouping by province. */
  function ProvinceOf(s: School): string { s.province }

  /** The four columns of a record. */
  datatype Field = Province | Name | Students | Year

  /** The column header of each field, as written in the files and accepted by the sort. */
  function FieldName(f: Field): string {
    match f
    case Province => "Provincia"
    case Name => "Colegio"
    case Students => "Cantidad de Estudiantes"
    case Year => "Año de Creación"
  }

  /** The field a column header names, if any. */
  function FieldOf(header: string): (r: Option<Field>)
    ensures r.Some? ==> FieldName(r.value) == header
    ensures r.None? ==> forall f :: FieldName(f) != header
  {
    if header == "Provincia" then Some(Province)
    else if header == "Colegio" then Some(Name)
    else if header == "Cantidad de Estudiantes" then Some(Students)
    else if header == "Año de Creación" then Some(Year)
    else None
  }

  /** Every field is found again from its header. */
  lemma FieldOfName(f: Field)
    ensures FieldOf(FieldName(f)) == Some(f)
  {
  }

  /** A record whose text fields are non-empty and carry no surrounding whitespace: the
      records the loader produces, and the ones a save can store and read back unchanged. */
  predicate Storable(s: School) {
    && s.province != "" && Trim(s.province) == s.province
    && s.name != "" && Trim(s.name) == s.name
  }
}
