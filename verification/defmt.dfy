/** The part of the `defmt` logging framework the driver uses: a formatter
    that text is written to piece by piece. */
module Defmt {

  /** `defmt::Formatter`: the text written to it so far. */
  class Formatter {
    var text: string

    constructor ()
      ensures text == ""
    {
      text := "";
    }

    /** `defmt::write!(fmt, s)`. */
    method Write(s: string)
      modifies this
      ensures text == old(text) + s
    {
      text := text + s;
    }
  }

  /** The parts, in order, with `sep` between each neighbouring pair. */
  function Join(parts: seq<string>, sep: string): string {
    if |parts| == 0 then ""
    else if |parts| == 1 then parts[0]
    else parts[0] + sep + Join(parts[1..], sep)
  }

  /** Appending a part extends the joined text by the separator (if there
      was anything before) and the part. */
  lemma {:induction false} JoinSnoc(parts: seq<string>, p: string, sep: string)
    ensures Join(parts + [p], sep) == if parts == [] then p else Join(parts, sep) + sep + p
  {
    if |parts| > 1 {
      assert (parts + [p])[1..] == parts[1..] + [p];
      JoinSnoc(parts[1..], p, sep);
    }
  }

  /** The joined text begins with the first part. */
  lemma JoinStartsWith(parts: seq<string>, sep: string)
    requires |parts| > 0
    ensures parts[0] <= Join(parts, sep)
    ensures |Join(parts, sep)| >= |parts[0]|
  {
    if |parts| > 1 {
      assert Join(parts, sep) == parts[0] + (sep + Join(parts[1..], sep));
    }
  }

  lemma JoinTwo(a: string, b: string, sep: string)
    ensures Join([a, b], sep) == a + sep + b
  {
    assert [a, b][1..] == [b];
  }

  lemma JoinThree(a: string, b: string, c: string, sep: string)
    ensures Join([a, b, c], sep) == a + sep + b + sep + c
  {
    assert [a, b, c][1..] == [b, c];
    JoinTwo(b, c, sep);
  }

  /** Up to three optional parts, joined: each present part, with the
      separator between present neighbours. */
  lemma JoinFlags(u: bool, o: bool, b: bool, x: string, y: string, z: string, sep: string)
    ensures Join((if u then [x] else []) + (if o then [y] else []) + (if b then [z] else []), sep)
         == (if u then x else "") + (if u && (o || b) then sep else "")
          + (if o then y else "") + (if o && b then sep else "")
          + (if b then z else "")
  {
    if u && o && b {
      assert [x] + [y] + [z] == [x, y, z];
      JoinThree(x, y, z, sep);
    } else if u && o {
      assert [x] + [y] + [] == [x, y];
      JoinTwo(x, y, sep);
    } else if u && b {
      assert [x] + [] + [z] == [x, z];
      JoinTwo(x, z, sep);
    } else if o && b {
      assert [] + [y] + [z] == [y, z];
      JoinTwo(y, z, sep);
    } else if u {
      assert [x] + [] + [] == [x];
    } else if o {
      assert [] + [y] + [] == [y];
    } else if b {
      assert [] + [] + [z] == [z];
    }
  }
}
