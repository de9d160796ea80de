/**
 * The `FILE *` stream of one client connection, as the HTTP engine uses it:
 * `fgets` hands out the request lines in order, and everything written
 * with `fprintf`/`fputs`/`fwrite` is appended to the output.
 */
module Streams {
  import opened Options

  class Socket {
    /** The raw lines `fgets` returns, each with its line end. */
    const input: seq<string>
    /** How many of them have been read. */
    var pos: nat
    /** What has been written to the client so far. */
    var output: string

    ghost predicate Valid()
      reads this
    {
      pos <= |input|
    }

    constructor(lines: seq<string>)
      ensures Valid()
      ensures input == lines && pos == 0 && output == []
    {
      input := lines;
      pos := 0;
      output := [];
    }

    /** `fgets`: the next line, or NULL once the client has sent everything. */
    method ReadLine() returns (line: Option<string>)
      requires Valid()
      modifies this
      ensures Valid()
      ensures old(pos) < |input| ==> line == Some(input[old(pos)]) && pos == old(pos) + 1
      ensures old(pos) == |input| ==> line.None? && pos == old(pos)
      ensures output == old(output)
    {
      if pos < |input| {
        line := Some(input[pos]);
        pos := pos + 1;
      } else {
        line := None;
      }
    }

    /** `fputs`/`fprintf`/`fwrite`: append `t` to the output. */
    method Write(t: string)
      requires Valid()
      modifies this
      ensures Valid()
      ensures output == old(output) + t && pos == old(pos)
    {
      output := output + t;
    }
  }

  /** Writing `a` and then `b` appends what writing `a + b` appends. */
  lemma AppendAssoc(out: string, a: string, b: string)
    ensures out + a + b == out + (a + b)
  {
  }
}
