/**
 What a stream has been given to write.
 */
module Streams {

  class Stream<T> {
    var written: seq<T>

    constructor ()
      ensures written == []
    {
      written := [];
    }

    method Write(s: seq<T>)
      modifies this
      ensures written == old(written) + s
    {
      written := written + s;
    }
  }
}
