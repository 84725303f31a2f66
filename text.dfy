/** String operations the handlers rely on: ASCII case folding (what SQLite's
    case-insensitive `LIKE` does; for `toLowerCase`, which folds every cased
    letter, it covers only the ASCII ones), SQLite `LIKE` matching itself, and
    the decimal rendering of a number in a template literal. */
module Text {

  /** ASCII lower-casing of one character. */
  function Lower(c: char): char {
    if 'A' <= c <= 'Z' then (c as int + 32) as char else c
  }

  /** `s.toLowerCase()`, on ASCII letters. */
  function LowerString(s: string): (r: string)
    ensures |r| == |s|
  {
    if s == [] then [] else [Lower(s[0])] + LowerString(s[1..])
  }

  predicate NoWildcards(p: string) {
    forall i :: 0 <= i < |p| ==> p[i] != '%' && p[i] != '_'
  }

  /** SQLite `s LIKE pattern` without an ESCAPE clause: `%` matches any run of
      characters, `_` any single character, and every other character matches
      itself ignoring ASCII case. */
  predicate Like(s: string, pattern: string)
    decreases |s| + |pattern|
  {
    if pattern == [] then s == []
    else if pattern[0] == '%' then Like(s, pattern[1..]) || (s != [] && Like(s[1..], pattern))
    else s != [] && (pattern[0] == '_' || Lower(pattern[0]) == Lower(s[0])) && Like(s[1..], pattern[1..])
  }

  /** A pattern without wildcards matches exactly the strings equal to it
      ignoring ASCII case. */
  lemma {:induction false} LikeLiteral(s: string, p: string)
    requires NoWildcards(p)
    ensures Like(s, p) <==> LowerString(s) == LowerString(p)
    decreases |p|
  {
    if p == [] {
      assert LowerString(p) == [];
      assert s != [] ==> |LowerString(s)| != 0;
    } else if s == [] {
      assert LowerString(s) == [];
      assert |LowerString(p)| != 0;
    } else {
      assert NoWildcards(p[1..]) by {
        forall i | 0 <= i < |p[1..]| ensures p[1..][i] != '%' && p[1..][i] != '_' {
          assert p[1..][i] == p[i + 1];
        }
      }
      LikeLiteral(s[1..], p[1..]);
      assert p[0] != '%' && p[0] != '_';
      var ls, lp := LowerString(s), LowerString(p);
      assert ls == [Lower(s[0])] + LowerString(s[1..]);
      assert lp == [Lower(p[0])] + LowerString(p[1..]);
      if ls == lp {
        assert ls[0] == lp[0];
        assert ls[1..] == lp[1..];
      }
    }
  }

  /** The pattern `%` matches every string. */
  lemma {:induction false} LikeAnything(s: string)
    ensures Like(s, "%")
    decreases |s|
  {
    if s != [] {
      LikeAnything(s[1..]);
    }
  }

  /** `s LIKE p || '%'` (the name search of the listings) holds exactly when
      `s` starts with `p`, ignoring ASCII case. */
  lemma {:induction false} LikePrefix(s: string, p: string)
    requires NoWildcards(p)
    ensures Like(s, p + "%") <==> |p| <= |s| && LowerString(s[..|p|]) == LowerString(p)
    decreases |p|
  {
    if p == [] {
      assert p + "%" == "%";
      LikeAnything(s);
      assert s[..0] == [];
    } else {
      assert (p + "%")[0] == p[0] && (p + "%")[1..] == p[1..] + "%";
      assert NoWildcards(p[1..]) by {
        forall i | 0 <= i < |p[1..]| ensures p[1..][i] != '%' && p[1..][i] != '_' {
          assert p[1..][i] == p[i + 1];
        }
      }
      assert p[0] != '%' && p[0] != '_';
      if s == [] {
        assert !Like(s, p + "%");
      } else {
        LikePrefix(s[1..], p[1..]);
        if |p| <= |s| {
          var ls, lp := LowerString(s[..|p|]), LowerString(p);
          assert s[..|p|] == [s[0]] + s[1..][..|p| - 1];
          assert ls == [Lower(s[0])] + LowerString(s[1..][..|p| - 1]);
          assert lp == [Lower(p[0])] + LowerString(p[1..]);
          if ls == lp {
            assert ls[0] == lp[0];
            assert ls[1..] == lp[1..];
          }
        }
      }
    }
  }

  function DigitChar(d: nat): (c: char)
    requires d < 10
    ensures '0' <= c <= '9'
  {
    ('0' as int + d) as char
  }

  /** The decimal rendering of a natural number, as `${n}` produces it. */
  function DecimalString(n: nat): (r: string)
    ensures 1 <= |r|
    ensures n >= 10 ==> 2 <= |r|
    ensures forall i :: 0 <= i < |r| ==> '0' <= r[i] <= '9'
    decreases n
  {
    if n < 10 then [DigitChar(n)] else DecimalString(n / 10) + [DigitChar(n % 10)]
  }

  /** Different numbers render differently. */
  lemma {:induction false} DecimalStringInjective(m: nat, n: nat)
    requires DecimalString(m) == DecimalString(n)
    ensures m == n
    decreases n
  {
    var dm, dn := DecimalString(m), DecimalString(n);
    if m < 10 && n < 10 {
      assert dm[0] == DigitChar(m) && dn[0] == DigitChar(n);
    } else if m < 10 || n < 10 {
      // one rendering has one digit, the other at least two
      assert false;
    } else {
      assert dm[|dm| - 1] == DigitChar(m % 10) && dn[|dn| - 1] == DigitChar(n % 10);
      assert dm[..|dm| - 1] == DecimalString(m / 10);
      assert dn[..|dn| - 1] == DecimalString(n / 10);
      DecimalStringInjective(m / 10, n / 10);
    }
  }
}
