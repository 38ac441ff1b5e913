/** PHP's explode and implode for a one-character separator. */
module PhpStrings {

  /** implode(sep, pieces): the pieces joined with sep between neighbours. */
  function Implode(sep: char, pieces: seq<string>): string
  {
    if |pieces| == 0 then ""
    else if |pieces| == 1 then pieces[0]
    else Implode(sep, pieces[..|pieces| - 1]) + [sep] + pieces[|pieces| - 1]
  }

  /** explode(sep, s): the pieces of s between occurrences of sep. The result
      is never empty; an empty string yields the single piece "". */
  function Explode(sep: char, s: string): (pieces: seq<string>)
    ensures |pieces| >= 1
    ensures s == "" ==> pieces == [""]
    ensures forall i :: 0 <= i < |pieces| ==> sep !in pieces[i]
    ensures Implode(sep, pieces) == s
  {
    if s == [] then [""]
    else
      var init := Explode(sep, s[..|s| - 1]);
      var c := s[|s| - 1];
      assert s == s[..|s| - 1] + [c];
      if c == sep then
        var r := init + [""];
        assert r[..|r| - 1] == init;
        r
      else
        var n := |init| - 1;
        var r := init[..n] + [init[n] + [c]];
        assert r[..n] == init[..n];
        assert n > 0 ==> Implode(sep, init) == Implode(sep, init[..n]) + [sep] + init[n];
        r
  }

  /** explode on a string extended by one character. */
  lemma ExplodeSnoc(sep: char, s: string, c: char)
    ensures Explode(sep, s + [c]) ==
            if c == sep then Explode(sep, s) + [""]
            else Explode(sep, s)[..|Explode(sep, s)| - 1] + [Explode(sep, s)[|Explode(sep, s)| - 1] + [c]]
  {
    var t := s + [c];
    assert t[..|t| - 1] == s;
  }

  lemma {:induction false} ExplodeWithoutSeparator(sep: char, x: string)
    requires sep !in x
    ensures Explode(sep, x) == [x]
  {
    if x != [] {
      var x' := x[..|x| - 1];
      ExplodeWithoutSeparator(sep, x');
      ExplodeSnoc(sep, x', x[|x| - 1]);
      assert x == x' + [x[|x| - 1]];
    }
  }

  lemma {:induction false} ExplodeAfterSeparator(sep: char, a: string, x: string)
    requires sep !in x
    ensures Explode(sep, a + [sep] + x) == Explode(sep, a) + [x]
  {
    if x == [] {
      ExplodeSnoc(sep, a, sep);
      assert a + [sep] + x == a + [sep];
    } else {
      var x', c := x[..|x| - 1], x[|x| - 1];
      assert x == x' + [c];
      assert c != sep by { assert c in x; }
      var t' := a + [sep] + x';
      assert a + [sep] + x == t' + [c];
      ExplodeAfterSeparator(sep, a, x');
      var e := Explode(sep, t');
      assert e == Explode(sep, a) + [x'];
      ExplodeSnoc(sep, t', c);
      assert e[..|e| - 1] == Explode(sep, a);
    }
  }

  /** Exploding what implode built gives back the pieces, provided there is
      at least one piece and none contains the separator. */
  lemma {:induction false} ExplodeImplode(sep: char, pieces: seq<string>)
    requires |pieces| >= 1
    requires forall i :: 0 <= i < |pieces| ==> sep !in pieces[i]
    ensures Explode(sep, Implode(sep, pieces)) == pieces
  {
    var n := |pieces| - 1;
    if n == 0 {
      ExplodeWithoutSeparator(sep, pieces[0]);
    } else {
      ExplodeImplode(sep, pieces[..n]);
      ExplodeAfterSeparator(sep, Implode(sep, pieces[..n]), pieces[n]);
      assert pieces == pieces[..n] + [pieces[n]];
    }
  }
}
