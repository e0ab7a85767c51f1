/** The `java.lang.String` operations the product programs rely on:
    `trim`, an ASCII `toLowerCase`, `contains` and `endsWith`. */
module JavaString {
  import opened JavaTypes

  const SPACE: Char16 := 0x20

  /** `trim` strips every code unit up to and including U+0020 from both ends. */
  predicate IsTrimmable(c: Char16) { c <= SPACE }

  /** A string `trim` leaves alone: empty, or neither end is trimmable. */
  predicate IsTrimmed(s: JString) {
    s == [] || (!IsTrimmable(s[0]) && !IsTrimmable(s[|s| - 1]))
  }

  /** `k` space characters. */
  function Spaces(k: nat): (r: JString)
    ensures |r| == k && forall i :: 0 <= i < k ==> r[i] == SPACE
  {
    if k == 0 then [] else Spaces(k - 1) + [SPACE]
  }

  /** The leading-whitespace half of `trim`. */
  function TrimStart(s: JString): (r: JString)
    ensures |r| <= |s|
  {
    if s != [] && IsTrimmable(s[0]) then TrimStart(s[1..]) else s
  }

  /** `TrimStart` drops a run of trimmable code units from the front and stops at the
      first one that is not trimmable. */
  lemma {:induction false} TrimStartSpec(s: JString)
    ensures var r := TrimStart(s);
      && r == s[|s| - |r|..]
      && (forall i :: 0 <= i < |s| - |r| ==> IsTrimmable(s[i]))
      && (r == [] || !IsTrimmable(r[0]))
  {
    if s != [] && IsTrimmable(s[0]) {
      TrimStartSpec(s[1..]);
      var r := TrimStart(s);
      assert s[1..][|s| - 1 - |r|..] == s[|s| - |r|..];
      forall i | 0 <= i < |s| - |r| ensures IsTrimmable(s[i]) {
        if i > 0 {
          assert s[i] == s[1..][i - 1];
        }
      }
    }
  }

  /** The trailing-whitespace half of `trim`. */
  function TrimEnd(s: JString): (r: JString)
    ensures |r| <= |s|
  {
    if s != [] && IsTrimmable(s[|s| - 1]) then TrimEnd(s[..|s| - 1]) else s
  }

  /** `TrimEnd` drops a run of trimmable code units from the back and stops at the
      last one that is not trimmable. */
  lemma {:induction false} TrimEndSpec(s: JString)
    ensures var r := TrimEnd(s);
      && r == s[..|r|]
      && (forall i :: |r| <= i < |s| ==> IsTrimmable(s[i]))
      && (r == [] || !IsTrimmable(r[|r| - 1]))
  {
    if s != [] && IsTrimmable(s[|s| - 1]) {
      var t := s[..|s| - 1];
      TrimEndSpec(t);
      var r := TrimEnd(s);
      assert t[..|r|] == s[..|r|];
      forall i | |r| <= i < |s| ensures IsTrimmable(s[i]) {
        if i < |s| - 1 {
          assert s[i] == t[i];
        }
      }
    }
  }

  /** `String.trim()`. */
  function Trim(s: JString): (r: JString)
    ensures |r| <= |s|
  {
    TrimEnd(TrimStart(s))
  }

  /** What `trim` returns has no trimmable code unit at either end. */
  lemma TrimIsTrimmed(s: JString)
    ensures IsTrimmed(Trim(s))
  {
    TrimStartSpec(s);
    TrimEndSpec(TrimStart(s));
  }

  /** `trim` returns the longest infix of `s` with no trimmable code unit at either
      end, obtained by dropping only trimmable code units. */
  lemma TrimSpec(s: JString)
    ensures var r := Trim(s); var a := |s| - |TrimStart(s)|;
      && a + |r| <= |s| && r == s[a..a + |r|]
      && (forall i :: 0 <= i < a ==> IsTrimmable(s[i]))
      && (forall i :: a + |r| <= i < |s| ==> IsTrimmable(s[i]))
  {
    var t := TrimStart(s);
    TrimStartSpec(s);
    TrimEndSpec(t);
    var r := Trim(s);
    var a := |s| - |t|;
    assert r == t[..|r|];
    assert t[..|r|] == s[a..a + |r|];
    forall i | a + |r| <= i < |s| ensures IsTrimmable(s[i]) {
      assert s[i] == t[i - a];
    }
  }

  lemma TrimmedIsFixpoint(s: JString)
    requires IsTrimmed(s)
    ensures Trim(s) == s
  {
  }

  /** `trim` is idempotent. */
  lemma TrimIdempotent(s: JString)
    ensures Trim(Trim(s)) == Trim(s)
  {
    TrimIsTrimmed(s);
    TrimmedIsFixpoint(Trim(s));
  }

  /** Leading trimmable code units are dropped from the front of `x + y`, and only
      reach into `y` when `x` is all trimmable. */
  lemma {:induction false} TrimStartAppend(x: JString, y: JString)
    ensures TrimStart(x + y) == if TrimStart(x) == [] then TrimStart(y) else TrimStart(x) + y
  {
    if x == [] {
      assert x + y == y;
    } else {
      assert (x + y)[0] == x[0];
      if IsTrimmable(x[0]) {
        assert (x + y)[1..] == x[1..] + y;
        TrimStartAppend(x[1..], y);
        assert TrimStart(x) == TrimStart(x[1..]);
      } else {
        assert TrimStart(x) == x;
      }
    }
  }

  /** Trailing spaces make no difference to the trailing half of `trim`. */
  lemma {:induction false} TrimEndSpaces(x: JString, k: nat)
    ensures TrimEnd(x + Spaces(k)) == TrimEnd(x)
  {
    if k > 0 {
      var y := x + Spaces(k);
      assert y[|y| - 1] == SPACE;
      assert y[..|y| - 1] == x + Spaces(k - 1);
      TrimEndSpaces(x, k - 1);
    } else {
      assert x + Spaces(k) == x;
    }
  }

  /** Space padding never changes what `trim` returns. */
  lemma TrimIgnoresPadding(s: JString, k: nat)
    ensures Trim(s + Spaces(k)) == Trim(s)
  {
    TrimStartAppend(s, Spaces(k));
    var t := TrimStart(s);
    if t != [] {
      TrimEndSpaces(t, k);
    } else {
      TrimStartSpec(Spaces(k));
    }
  }

  /** Trailing space padding added to a trimmed string is exactly what `trim` removes. */
  lemma TrimDropsPadding(s: JString, k: nat)
    requires IsTrimmed(s)
    ensures Trim(s + Spaces(k)) == s
  {
    TrimIgnoresPadding(s, k);
    TrimmedIsFixpoint(s);
  }

  /** ASCII `Character.toLowerCase`: 'A'..'Z' map to 'a'..'z', all else is unchanged. */
  function LowerChar(c: Char16): Char16 {
    if 0x41 <= c <= 0x5A then c + 0x20 else c
  }

  /** `String.toLowerCase()` restricted to ASCII letters. */
  function Lower(s: JString): (r: JString)
    ensures |r| == |s| && forall i :: 0 <= i < |s| ==> r[i] == LowerChar(s[i])
  {
    if s == [] then [] else [LowerChar(s[0])] + Lower(s[1..])
  }

  /** Lower-casing twice is lower-casing once. */
  lemma LowerIdempotent(s: JString)
    ensures Lower(Lower(s)) == Lower(s)
  {
    assert forall i :: 0 <= i < |s| ==> LowerChar(LowerChar(s[i])) == LowerChar(s[i]);
  }

  /** `String.contains`: `t` occurs in `s` at some offset. */
  predicate Contains(s: JString, t: JString) {
    exists i :: 0 <= i <= |s| - |t| && t <= s[i..]
  }

  /** `String.endsWith`. */
  predicate EndsWith(s: JString, suffix: JString) {
    |suffix| <= |s| && s[|s| - |suffix|..] == suffix
  }
}
