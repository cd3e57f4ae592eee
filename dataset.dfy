/** The metadata records of `checkpoints.json`, as far as matching looks at them. */
module Dataset {

  /**
    One dataset entry: the content hashes and the file names known for one
    shared model. Its other fields travel along unchanged and are not modelled.
  */
  datatype Entry = Entry(hashes: seq<string>, files: seq<string>)
}
