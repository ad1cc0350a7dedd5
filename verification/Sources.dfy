/** Files and the names in them. */
module Sources {

  datatype FileId = FileId(path: string)
  datatype Name = Name(text: string)
}
