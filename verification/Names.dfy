/** The names by which configurations refer to projects and packages. */
module Names {
  datatype Name = Name(text: string)
}
