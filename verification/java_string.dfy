/** The `java.lang.String` operations the search filters and `hashCode` use:
    `toLowerCase` (restricted to ASCII), `trim`, `contains`, `isEmpty` and
    `hashCode`. */
module JavaString {
  import opened JavaLang

  // ---------------------------------------------------------------------
  // toLowerCase

  function LowerChar(c: char): (d: char)
    ensures 'A' <= c <= 'Z' ==> 'a' <= d <= 'z' && d as int - c as int == 32
    ensures !('A' <= c <= 'Z') ==> d == c
  {
    if 'A' <= c <= 'Z' then (c as int + 32) as char else c
  }

  /** `s.toLowerCase()` for ASCII letters; every other character is kept. */
  function ToLower(s: string): (r: string)
    ensures |r| == |s|
    ensures forall i :: 0 <= i < |s| ==> r[i] == LowerChar(s[i])
    ensures forall i :: 0 <= i < |r| ==> !('A' <= r[i] <= 'Z')
  {
    seq(|s|, i requires 0 <= i < |s| => LowerChar(s[i]))
  }

  // ---------------------------------------------------------------------
  // trim

  /** `trim` strips every character whose code is at most U+0020. */
  predicate IsTrimmable(c: char) {
    c <= ' '
  }

  /** `s.trim().isEmpty()`: nothing but trimmable characters. */
  predicate IsBlank(s: string) {
    forall i :: 0 <= i < |s| ==> IsTrimmable(s[i])
  }

  function TrimStart(s: string): (r: string)
    ensures |r| <= |s| && r == s[|s| - |r|..]
    ensures forall i :: 0 <= i < |s| - |r| ==> IsTrimmable(s[i])
    ensures r != [] ==> !IsTrimmable(r[0])
  {
    if s != [] && IsTrimmable(s[0]) then TrimStart(s[1..]) else s
  }

  function TrimEnd(s: string): (r: string)
    ensures |r| <= |s| && r == s[..|r|]
    ensures forall i :: |r| <= i < |s| ==> IsTrimmable(s[i])
    ensures r != [] ==> !IsTrimmable(r[|r| - 1])
  {
    if s != [] && IsTrimmable(s[|s| - 1]) then TrimEnd(s[..|s| - 1]) else s
  }

  /** `s.trim()`: the longest middle slice that neither starts nor ends
      with a trimmable character, all removed characters being trimmable. */
  function Trim(s: string): (r: string)
    ensures exists i, j :: 0 <= i <= j <= |s| && r == s[i..j]
                           && IsBlank(s[..i]) && IsBlank(s[j..])
    ensures r != [] ==> !IsTrimmable(r[0]) && !IsTrimmable(r[|r| - 1])
  {
    var a := TrimStart(s);
    var b := TrimEnd(a);
    TrimCuts(s, a, b);
    b
  }

  /** Cutting a trimmable prefix off `s` to leave `a`, then a trimmable
      suffix off `a` to leave `b`, leaves the middle slice of `s` between
      two blank ends. */
  lemma {:induction false} TrimCuts(s: string, a: string, b: string)
    requires |a| <= |s| && a == s[|s| - |a|..]
    requires forall k :: 0 <= k < |s| - |a| ==> IsTrimmable(s[k])
    requires a != [] ==> !IsTrimmable(a[0])
    requires |b| <= |a| && b == a[..|b|]
    requires forall k :: |b| <= k < |a| ==> IsTrimmable(a[k])
    requires b != [] ==> !IsTrimmable(b[|b| - 1])
    ensures var i := |s| - |a|;
            && b == s[i..i + |b|] && IsBlank(s[..i]) && IsBlank(s[i + |b|..])
    ensures b != [] ==> !IsTrimmable(b[0])
  {
    var i := |s| - |a|;
    var j := i + |b|;
    assert b == s[i..j];
    BlankPrefix(s, i);
    forall k | j <= k < |s| ensures IsTrimmable(s[k]) {
      assert s[k] == a[k - i];
    }
    BlankSuffix(s, j);
    if b != [] {
      assert b[0] == a[0];
    }
  }

  /** A leading run of trimmable characters is a blank prefix. */
  lemma {:induction false} BlankPrefix(s: string, i: int)
    requires 0 <= i <= |s|
    requires forall k :: 0 <= k < i ==> IsTrimmable(s[k])
    ensures IsBlank(s[..i])
  {
    forall k | 0 <= k < i ensures IsTrimmable(s[..i][k]) {
      assert s[..i][k] == s[k];
    }
  }

  /** A trailing run of trimmable characters is a blank suffix. */
  lemma {:induction false} BlankSuffix(s: string, j: int)
    requires 0 <= j <= |s|
    requires forall k :: j <= k < |s| ==> IsTrimmable(s[k])
    ensures IsBlank(s[j..])
  {
    forall k | 0 <= k < |s| - j ensures IsTrimmable(s[j..][k]) {
      assert s[j..][k] == s[j + k];
    }
  }

  /** A string trims to nothing exactly when it is blank. */
  lemma TrimEmptyIffBlank(s: string)
    ensures Trim(s) == [] <==> IsBlank(s)
  {
    var r := Trim(s);
    var i, j :| 0 <= i <= j <= |s| && r == s[i..j] && IsBlank(s[..i]) && IsBlank(s[j..]);
    if r == [] {
      forall k | 0 <= k < |s| ensures IsTrimmable(s[k]) {
        if k < i {
          assert s[k] == s[..i][k];
        } else {
          assert s[k] == s[j..][k - j];
        }
      }
    } else {
      assert !IsTrimmable(s[i]);
    }
  }

  /** Lower-casing only touches letters, which `trim` never removes, so
      `toLowerCase().trim()` and `trim().toLowerCase()` agree. */
  lemma {:induction false} LowerTrimCommute(s: string)
    ensures Trim(ToLower(s)) == ToLower(Trim(s))
  {
    TrimStartLower(s);
    TrimEndLower(TrimStart(s));
    assert ToLower(TrimStart(s)) == TrimStart(ToLower(s));
  }

  lemma {:induction false} TrimStartLower(s: string)
    ensures TrimStart(ToLower(s)) == ToLower(TrimStart(s))
    decreases |s|
  {
    if s != [] && IsTrimmable(s[0]) {
      assert ToLower(s)[1..] == ToLower(s[1..]);
      TrimStartLower(s[1..]);
    }
  }

  lemma {:induction false} TrimEndLower(s: string)
    ensures TrimEnd(ToLower(s)) == ToLower(TrimEnd(s))
    decreases |s|
  {
    if s != [] && IsTrimmable(s[|s| - 1]) {
      assert ToLower(s)[..|s| - 1] == ToLower(s[..|s| - 1]);
      TrimEndLower(s[..|s| - 1]);
    }
  }

  // ---------------------------------------------------------------------
  // contains

  /** `needle` occurs in `hay` starting at index `i`. */
  predicate OccursAt(hay: string, needle: string, i: int) {
    0 <= i && i + |needle| <= |hay| && hay[i..i + |needle|] == needle
  }

  /** `hay.contains(needle)`, scanning start positions left to right. */
  function Contains(hay: string, needle: string): (r: bool)
    ensures r <==> exists i :: OccursAt(hay, needle, i)
    decreases |hay|
  {
    if |needle| > |hay| then
      assert forall i :: !OccursAt(hay, needle, i);
      false
    else if hay[..|needle|] == needle then
      assert OccursAt(hay, needle, 0);
      true
    else
      var rest := Contains(hay[1..], needle);
      assert forall i :: OccursAt(hay[1..], needle, i) <==> OccursAt(hay, needle, i + 1) by {
        forall i ensures OccursAt(hay[1..], needle, i) <==> OccursAt(hay, needle, i + 1) {
          if 0 <= i && i + |needle| <= |hay| - 1 {
            assert hay[1..][i..i + |needle|] == hay[i + 1..i + 1 + |needle|];
          }
        }
      }
      assert !OccursAt(hay, needle, 0);
      assert (exists i :: OccursAt(hay, needle, i)) ==> exists i :: OccursAt(hay[1..], needle, i) by {
        if exists i :: OccursAt(hay, needle, i) {
          var i :| OccursAt(hay, needle, i);
          assert OccursAt(hay[1..], needle, i - 1);
        }
      }
      rest
  }

  /** Every string contains the empty string. */
  lemma ContainsEmpty(hay: string)
    ensures Contains(hay, "")
  {
    assert OccursAt(hay, "", 0);
  }

  // ---------------------------------------------------------------------
  // hashCode

  /** The mathematical polynomial `s[0]*31^(n-1) + ... + s[n-1]` that
      `String.hashCode` computes modulo 2^32. */
  ghost function HashPolynomial(s: string): int {
    if s == [] then 0 else 31 * HashPolynomial(s[..|s| - 1]) + s[|s| - 1] as int
  }

  /** `String.hashCode`: `h = 31 * h + c` over the characters, in `int`
      arithmetic. Characters are taken as single code units. */
  method StringHashCode(s: string) returns (h: Int32)
    ensures h == Wrap32(HashPolynomial(s))
    ensures s == [] ==> h == 0
  {
    h := 0;
    var i := 0;
    while i < |s|
      invariant 0 <= i <= |s|
      invariant h == Wrap32(HashPolynomial(s[..i]))
    {
      assert s[..i + 1][..i] == s[..i];
      WrapLinear(HashPolynomial(s[..i]), 31, s[i] as int);
      WrapLinear(31 * h, 1, s[i] as int);
      h := Wrap32(Wrap32(31 * h) + s[i] as int);
      i := i + 1;
    }
    assert s[..i] == s;
  }
}
