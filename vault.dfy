/** The host's note storage, reduced to what the handlers do with it. */
module Vault {

  /** A markdown note in the vault, whose text the handlers rewrite. */
  class Note {
    var data: string

    constructor (data: string)
      ensures this.data == data
    {
      this.data := data;
    }

    /** `vault.process(file, fn)`: the note's text becomes `fn` applied to its current text. */
    method Process(fn: string -> string)
      modifies this
      ensures data == fn(old(data))
    {
      data := fn(data);
    }
  }
}
