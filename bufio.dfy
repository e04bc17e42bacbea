/** The part of Go's `bufio.Reader` that the completion relay uses. */
module Bufio {
  import opened Common
  import opened Strings

  /** The error `ReadString` reports once no delimiter is left (`io.EOF`). */
  const EOF: Error := Error("EOF")

  /** A reader over a response body, read with `ReadString('\n')`. `data` is the
      text the connection yields before it ends; whether it then ends with EOF
      or with a transport error, `ReadString` fails the same way. */
  class LineReader {
    const data: string
    var pos: nat

    ghost predicate Valid()
      reads this
    {
      pos <= |data|
    }

    constructor (body: string)
      ensures Valid() && data == body && pos == 0
    {
      data := body;
      pos := 0;
    }

    /** `ReadString('\n')`: the text up to and including the next '\n'; when no
        '\n' is left, the rest of the data and an error. */
    method ReadString() returns (line: string, err: Option<Error>)
      requires Valid()
      modifies this
      ensures Valid()
      ensures var j := IndexFrom(data, '\n', old(pos));
        && (err.Some? <==> j == |data|)
        && (err.Some? ==> err == Some(EOF) && line == data[old(pos)..] && pos == |data|)
        && (err.None? ==> line == data[old(pos)..j + 1] && pos == j + 1)
    {
      var j := pos;
      while j < |data| && data[j] != '\n'
        invariant pos <= j <= |data|
        invariant forall k :: pos <= k < j ==> data[k] != '\n'
      {
        j := j + 1;
      }
      IndexFromAt(data, '\n', pos, j);
      if j == |data| {
        line, err := data[pos..], Some(EOF);
        pos := |data|;
      } else {
        line, err := data[pos..j + 1], None;
        pos := j + 1;
      }
    }
  }
}
