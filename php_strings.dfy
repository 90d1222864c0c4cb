/**
 * PHP's `explode($separator, $string)` for a one-character separator and no
 * limit argument, and its inverse `implode`.  Empty pieces are kept: the
 * empty string gives one empty piece, and two separators in a row give an
 * empty piece between them.
 */
module PhpStrings {

  /** The number of times `c` occurs in `s`. */
  function Occurrences(c: char, s: string): (n: nat)
  {
    if s == [] then 0
    else (if s[0] == c then 1 else 0) + Occurrences(c, s[1..])
  }

  /** `explode(sep, s)`: the pieces of `s` between separators, in order. */
  function Explode(sep: char, s: string): (pieces: seq<string>)
    ensures |pieces| >= 1
    ensures forall i :: 0 <= i < |pieces| ==> sep !in pieces[i]
  {
    if s == [] then [[]]
    else
      var rest := Explode(sep, s[1..]);
      if s[0] == sep then [[]] + rest
      else [[s[0]] + rest[0]] + rest[1..]
  }

  /** `implode(sep, pieces)`: the pieces joined with one separator between neighbours. */
  function Implode(sep: char, pieces: seq<string>): (s: string)
  {
    if pieces == [] then []
    else if |pieces| == 1 then pieces[0]
    else pieces[0] + [sep] + Implode(sep, pieces[1..])
  }

  /** Joining the pieces again gives back the exploded string. */
  lemma {:induction false} ImplodeExplode(sep: char, s: string)
    ensures Implode(sep, Explode(sep, s)) == s
  {
    if s != [] {
      var rest := Explode(sep, s[1..]);
      ImplodeExplode(sep, s[1..]);
      if s[0] == sep {
        assert Explode(sep, s) == [[]] + rest;
        assert s == [] + [sep] + s[1..];
      } else {
        var pieces := [[s[0]] + rest[0]] + rest[1..];
        assert Explode(sep, s) == pieces;
        if |rest| == 1 {
          assert s == [s[0]] + s[1..];
        } else {
          assert pieces[1..] == rest[1..];
          assert Implode(sep, rest) == rest[0] + [sep] + Implode(sep, rest[1..]);
          assert s == [s[0]] + s[1..];
        }
      }
    }
  }

  /** There is one more piece than there are separators in the string. */
  lemma {:induction false} ExplodeCount(sep: char, s: string)
    ensures |Explode(sep, s)| == Occurrences(sep, s) + 1
  {
    if s != [] {
      ExplodeCount(sep, s[1..]);
    }
  }

  /** A separator-free prefix is glued onto the first piece of what follows it. */
  lemma {:induction false} ExplodePrefix(sep: char, p: string, s: string)
    requires sep !in p
    ensures Explode(sep, p + s) == [p + Explode(sep, s)[0]] + Explode(sep, s)[1..]
  {
    if p != [] {
      ExplodePrefix(sep, p[1..], s);
      assert (p + s)[1..] == p[1..] + s;
      assert [p[0]] + (p[1..] + Explode(sep, s)[0]) == p + Explode(sep, s)[0];
    } else {
      var pieces := Explode(sep, s);
      assert p + s == s && p + pieces[0] == pieces[0];
      assert [pieces[0]] + pieces[1..] == pieces;
    }
  }

  /**
   * Exploding a join gives back the pieces, provided there is at least one
   * piece and no piece contains the separator.
   */
  lemma {:induction false} ExplodeImplode(sep: char, pieces: seq<string>)
    requires |pieces| >= 1
    requires forall i :: 0 <= i < |pieces| ==> sep !in pieces[i]
    ensures Explode(sep, Implode(sep, pieces)) == pieces
  {
    if |pieces| == 1 {
      ExplodePrefix(sep, pieces[0], []);
      assert pieces[0] + [] == pieces[0];
    } else {
      var tail := Implode(sep, pieces[1..]);
      ExplodeImplode(sep, pieces[1..]);
      ExplodePrefix(sep, pieces[0], [sep] + tail);
      assert pieces[0] + [sep] + tail == pieces[0] + ([sep] + tail);
      assert ([sep] + tail)[1..] == tail;
      assert Explode(sep, [sep] + tail) == [[]] + pieces[1..];
      assert pieces[0] + [] == pieces[0];
    }
  }
}
