/** A text stream that is read one character or one line at a time. */
module Streams {

  /** The position of the first `c` in `s`, or the length of `s`. */
  function IndexOf(s: string, c: char): (k: nat)
    ensures k <= |s| && c !in s[..k] && (k < |s| ==> s[k] == c)
  {
    if s == "" then 0
    else if s[0] == c then 0
    else
      var k := IndexOf(s[1..], c);
      assert s[..k+1] == [s[0]] + s[1..][..k];
      k + 1
  }

  class InputStream {
    const data: string
    var pos: nat
    var good: bool

    constructor (data: string)
      ensures Valid() && Rest() == data && good
    {
      this.data, pos, good := data, 0, true;
    }

    ghost predicate Valid()
      reads this
    {
      pos <= |data|
    }

    /** What can still be read. */
    ghost function Rest(): string
      requires Valid()
      reads this
    {
      if good then data[pos..] else ""
    }

    /** Reads one character. At the end of the text nothing is read and the stream goes bad. */
    method Get() returns (ok: bool, c: char)
      requires Valid()
      modifies this
      ensures Valid() && ok == (old(Rest()) != "")
      ensures if ok then good && 0 < pos && data[pos-1] == c && [c] + Rest() == old(Rest()) else !good
    {
      if good && pos < |data| {
        ok, c := true, data[pos];
        pos := pos + 1;
      } else {
        ok, c := false, '\0';
        good := false;
      }
    }

    /** Puts the last character back. */
    method Unget()
      requires Valid() && good && 0 < pos
      modifies this
      ensures Valid() && good && Rest() == [data[old(pos)-1]] + old(Rest())
    {
      pos := pos - 1;
    }

    /** Reads up to and including the next `delim`, or to the end of the text if there is none. */
    method GetLine(delim: char) returns (ok: bool, line: string)
      requires Valid()
      modifies this
      ensures Valid()
      ensures var r := old(Rest()); var k := IndexOf(r, delim);
              ok == (r != "") && line == r[..k] && Rest() == if k < |r| then r[k+1..] else ""
    {
      ghost var r := Rest();
      line, ok := "", false;
      if !good { return; }
      var start := pos;
      while pos < |data|
        invariant good && Valid() && start <= pos && start == old(pos)
        invariant line == data[start..pos] && line == r[..|line|] && ok == (line != "") && delim !in line
      {
        var c := data[pos];
        pos, ok := pos + 1, true;
        if c == delim {
          FirstIndex(r, delim, |line|);
          return;
        }
        line := line + [c];
      }
      good := false;
      FirstIndex(r, delim, |line|);
    }

    /** Reads `n` characters, or as many as there are. */
    method Read(n: nat) returns (s: string)
      requires Valid()
      modifies this
      ensures Valid()
      ensures var r := old(Rest()); s == if n <= |r| then r[..n] else r
    {
      if !good {
        s := "";
      } else if n <= |data| - pos {
        s := data[pos..pos+n];
        pos := pos + n;
      } else {
        s := data[pos..];
        pos, good := |data|, false;
      }
    }
  }

  lemma FirstIndex(s: string, c: char, k: nat)
    requires k <= |s| && c !in s[..k] && (k < |s| ==> s[k] == c)
    ensures IndexOf(s, c) == k
  {
  }
}
