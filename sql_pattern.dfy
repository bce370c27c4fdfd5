/** The meaning of the LIKE patterns the compiler builds: '%' stands for any
    run of characters, '_' for exactly one, everything else for itself.
    This is the reference against which the pattern builders are proved; it
    is not a model of how a database evaluates a query. */
module SqlPattern {
  import opened Strings

  /** Text t matches LIKE pattern p (escapes are not modelled, see Literal). */
  predicate Matches(p: string, t: string)
    decreases |p| + |t|
  {
    if p == [] then t == []
    else if p[0] == '%' then Matches(p[1..], t) || (t != [] && Matches(p, t[1..]))
    else if p[0] == '_' then t != [] && Matches(p[1..], t[1..])
    else t != [] && t[0] == p[0] && Matches(p[1..], t[1..])
  }

  /** w holds no wildcard and no escape character, so it stands for itself. */
  predicate Literal(w: string)
  {
    forall i :: 0 <= i < |w| ==> w[i] != '%' && w[i] != '_' && w[i] != '\\'
  }

  /** "%" matches every text. */
  lemma {:induction false} PercentMatchesAll(t: string)
    ensures Matches("%", t)
    decreases |t|
  {
    assert "%"[1..] == [];
    if t != [] {
      PercentMatchesAll(t[1..]);
    }
  }

  /** A literal pattern matches exactly itself. */
  lemma {:induction false} MatchesLiteral(w: string, t: string)
    requires Literal(w)
    ensures Matches(w, t) <==> t == w
    decreases |w|
  {
    if w != [] && t != [] {
      MatchesLiteral(w[1..], t[1..]);
      assert t == [t[0]] + t[1..];
      assert w == [w[0]] + w[1..];
    }
  }

  /** w + "%" matches the texts that start with w. */
  lemma {:induction false} MatchesPrefix(w: string, t: string)
    requires Literal(w)
    ensures Matches(w + "%", t) <==> StartsWith(t, w)
    decreases |w|
  {
    if w == [] {
      assert w + "%" == "%";
      PercentMatchesAll(t);
    } else {
      assert (w + "%")[0] == w[0];
      assert (w + "%")[1..] == w[1..] + "%";
      if t != [] {
        MatchesPrefix(w[1..], t[1..]);
        if StartsWith(t, w) {
          assert t[1..][..|w| - 1] == t[..|w|][1..];
        }
        if StartsWith(t[1..], w[1..]) && t[0] == w[0] {
          assert t[..|w|] == [t[0]] + t[1..][..|w| - 1];
        }
      }
    }
  }

  /** "%" + w matches the texts that end with w. */
  lemma {:induction false} MatchesSuffix(w: string, t: string)
    requires Literal(w)
    ensures Matches("%" + w, t) <==> EndsWith(t, w)
    decreases |t|
  {
    var p := "%" + w;
    assert p[1..] == w;
    MatchesLiteral(w, t);
    if t != [] {
      MatchesSuffix(w, t[1..]);
      if EndsWith(t, w) && t != w {
        assert |w| < |t|;
        assert t[1..][|t| - 1 - |w|..] == t[|t| - |w|..];
      }
      if EndsWith(t[1..], w) {
        assert t[1..][|t| - 1 - |w|..] == t[|t| - |w|..];
      }
    } else {
      assert EndsWith(t, w) <==> w == [];
    }
  }

  /** "%" + w + "%" matches the texts that contain w. */
  lemma {:induction false} MatchesInfix(w: string, t: string)
    requires Literal(w)
    ensures Matches("%" + w + "%", t) <==> Contains(t, w)
    decreases |t|
  {
    var p := "%" + w + "%";
    assert p[1..] == w + "%";
    MatchesPrefix(w, t);
    if t != [] {
      MatchesInfix(w, t[1..]);
    }
  }
}
