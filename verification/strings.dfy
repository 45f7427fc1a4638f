/** Splitting a string at a separator character and joining pieces back,
    as JavaScript's `split` with a one-character separator and `join`. */
module Strings {
  /** The pieces between occurrences of `sep`, empty pieces included, so
      there is always at least one. */
  function Split(s: string, sep: char): (ps: seq<string>)
    ensures |ps| >= 1
    ensures forall i :: 0 <= i < |ps| ==> sep !in ps[i]
  {
    if |s| == 0 then [""]
    else
      var rest := Split(s[1..], sep);
      if s[0] == sep then [""] + rest
      else [[s[0]] + rest[0]] + rest[1..]
  }

  /** The pieces glued back with `sep` between them. */
  function Join(ps: seq<string>, sep: char): string
    requires |ps| >= 1
  {
    if |ps| == 1 then ps[0] else ps[0] + [sep] + Join(ps[1..], sep)
  }

  /** Joining the pieces gives the string back. */
  lemma {:induction false} JoinSplit(s: string, sep: char)
    ensures Join(Split(s, sep), sep) == s
  {
    if |s| > 0 {
      var rest := Split(s[1..], sep);
      JoinSplit(s[1..], sep);
      if s[0] == sep {
        assert ([""] + rest)[1..] == rest;
      } else {
        var ps := [[s[0]] + rest[0]] + rest[1..];
        if |rest| > 1 {
          assert ps[1..] == rest[1..];
          assert Join(rest, sep) == rest[0] + [sep] + Join(rest[1..], sep);
        }
        assert s == [s[0]] + s[1..];
      }
    }
  }

  /** Splitting a join of separator-free pieces gives the pieces back. */
  lemma {:induction false} SplitJoin(ps: seq<string>, sep: char)
    requires |ps| >= 1 && forall i :: 0 <= i < |ps| ==> sep !in ps[i]
    ensures Split(Join(ps, sep), sep) == ps
    decreases |ps|, |ps[0]|
  {
    if |ps[0]| == 0 {
      if |ps| > 1 {
        SplitJoin(ps[1..], sep);
        assert Join(ps, sep) == [sep] + Join(ps[1..], sep);
        assert Join(ps, sep)[1..] == Join(ps[1..], sep);
        assert ps == [""] + ps[1..];
      }
    } else {
      var c := ps[0][0];
      assert c in ps[0];
      var ps' := [ps[0][1..]] + ps[1..];
      assert forall i :: 0 <= i < |ps'| ==> sep !in ps'[i] by {
        forall i | 0 <= i < |ps'| ensures sep !in ps'[i] {
          if i == 0 {
            assert forall x :: x in ps[0][1..] ==> x in ps[0];
          } else {
            assert ps'[i] == ps[i];
          }
        }
      }
      SplitJoin(ps', sep);
      assert ps'[1..] == ps[1..];
      assert Join(ps, sep) == [c] + Join(ps', sep) by {
        if |ps| > 1 {
          assert Join(ps', sep) == ps[0][1..] + [sep] + Join(ps[1..], sep);
        }
        assert ps[0] == [c] + ps[0][1..];
      }
      assert Join(ps, sep)[1..] == Join(ps', sep);
      assert [c] + ps'[0] == ps[0];
      assert ps == [ps[0]] + ps[1..];
    }
  }

  lemma JoinTwo(a: string, b: string, sep: char)
    ensures Join([a, b], sep) == a + [sep] + b
  {
    assert [a, b][1..] == [b];
  }

  lemma JoinThree(a: string, b: string, c: string, sep: char)
    ensures Join([a, b, c], sep) == a + [sep] + b + [sep] + c
  {
    assert [a, b, c][1..] == [b, c];
    JoinTwo(b, c, sep);
  }

  /** Three pieces free of the separator come back from their joined text. */
  lemma SplitThree(a: string, b: string, c: string, sep: char)
    requires sep !in a && sep !in b && sep !in c
    ensures Split(a + [sep] + b + [sep] + c, sep) == [a, b, c]
  {
    var ps := [a, b, c];
    assert forall i :: 0 <= i < 3 ==> sep !in ps[i];
    JoinThree(a, b, c, sep);
    SplitJoin(ps, sep);
  }
}
