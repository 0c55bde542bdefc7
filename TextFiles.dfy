/** A text file being written: `open(path, "w")` creates it empty, each
    `write` appends to it, and re-opening it with mode `"a"` keeps what it holds. */
module TextFiles {

  class TextFile {
    /** Everything written to the file so far. */
    var content: string

    /** `open(path, "w")`: the file is created, or truncated, empty. */
    constructor ()
      ensures content == ""
    {
      content := "";
    }

    /** `file.write(s)`. */
    method Write(s: string)
      modifies this
      ensures content == old(content) + s
    {
      content := content + s;
    }
  }
}
