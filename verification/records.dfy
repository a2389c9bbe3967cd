/**
 The news records the generators read from `noticias.json`: each member is
 missing, JSON `null`, or a string.
 */
module Records {
  /** One member of a JSON object as the scripts see it. Python's `.get`
      returns its default only for `Absent`; JavaScript's default
      parameters apply to `Absent` (`undefined`) but not to `Null`. */
  datatype Field = Absent | Null | Str(text: string)

  /** JavaScript truthiness of a member: a non-empty string. */
  predicate Truthy(f: Field) {
    f.Str? && f.text != ""
  }

  /** A news item of `data.items`. */
  datatype Noticia = Noticia(
    titulo: Field,
    fecha: Field,
    imagen: Field,
    resumen: Field,
    cuerpo: Field)
}
