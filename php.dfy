/**
 * The parts of PHP's own semantics the web service relies on: truthiness of
 * strings, `empty()`, `trim`/`rtrim`, `ucfirst`, `strpos`, `explode` and the
 * integer conversion that `bind_param('i', …)` applies to its arguments.
 */
module Php {
  import opened Wrappers

  /** Boolean conversion of a string-or-null (`if ($id)`, `!$id`):
      null, "" and "0" are false, every other string is true. */
  predicate Truthy(v: Option<string>): (b: bool)
    ensures b ==> v.Some? && |v.value| >= 1
    ensures v.Some? && |v.value| >= 2 ==> b
    ensures v.Some? && |v.value| == 1 ==> (b <==> v.value[0] != '0')
  {
    v.Some? && v.value != "" && v.value != "0"
  }

  /** `empty($m[$key])` on a map of strings: the key is missing, or its value is "" or "0". */
  predicate EmptyAt(m: map<string, string>, key: string): (b: bool)
    ensures b <==> !Truthy(if key in m then Some(m[key]) else None)
  {
    key !in m || m[key] == "" || m[key] == "0"
  }

  // ---------------------------------------------------------------- trimming

  /** `rtrim($s, $c)` for one character: every trailing c is dropped, nothing else. */
  function RTrim(s: string, c: char): (r: string)
    ensures |r| <= |s| && r == s[..|r|]
    ensures forall k :: |r| <= k < |s| ==> s[k] == c
    ensures r == [] || r[|r| - 1] != c
    decreases |s|
  {
    if s != [] && s[|s| - 1] == c then RTrim(s[..|s| - 1], c) else s
  }

  /** A string ending in exactly one c loses just that one to `rtrim`. */
  lemma RTrimOne(s: string, c: char)
    requires |s| >= 2 && s[|s| - 1] == c && s[|s| - 2] != c
    ensures RTrim(s, c) + [c] == s
  {
    assert RTrim(s, c) == RTrim(s[..|s| - 1], c) == s[..|s| - 1];
  }

  /** `ltrim($s, $c)` for one character: every leading c is dropped, nothing else. */
  function LTrim(s: string, c: char): (r: string)
    ensures |r| <= |s| && r == s[|s| - |r|..]
    ensures forall k :: 0 <= k < |s| - |r| ==> s[k] == c
    ensures r == [] || r[0] != c
    decreases |s|
  {
    if s != [] && s[0] == c then
      var r := LTrim(s[1..], c);
      assert forall k :: 1 <= k < |s| - |r| ==> s[k] == s[1..][k - 1];
      r
    else s
  }

  /** r is s[i..j], and s holds only c's before i and from j on. */
  ghost predicate CutAt(s: string, r: string, c: char, i: int, j: int)
  {
    0 <= i <= j <= |s| && r == s[i..j]
    && (forall k :: 0 <= k < i ==> s[k] == c) && (forall k :: j <= k < |s| ==> s[k] == c)
  }

  /** r is a contiguous piece of s with only c's before it and after it. */
  ghost predicate CutFrom(s: string, r: string, c: char)
  {
    exists i, j :: CutAt(s, r, c, i, j)
  }

  /** `trim($s, $c)`: the middle of s, with only c's cut off before and after
      it, and neither end of it a c; a string already free of c at both ends
      is left as it is. */
  function Trim(s: string, c: char): (r: string)
    ensures CutFrom(s, r, c)
    ensures r == [] || (r[0] != c && r[|r| - 1] != c)
    ensures (s == [] || (s[0] != c && s[|s| - 1] != c)) ==> r == s
  {
    TrimCut(s, c);
    TrimEnds(s, c);
    RTrim(LTrim(s, c), c)
  }

  /** Neither end of the trimmed string is a c, and a string with no c at
      either end is its own trim. */
  lemma TrimEnds(s: string, c: char)
    ensures var r := RTrim(LTrim(s, c), c);
      (r == [] || (r[0] != c && r[|r| - 1] != c))
      && ((s == [] || (s[0] != c && s[|s| - 1] != c)) ==> r == s)
  {
    var left := LTrim(s, c);
    var r := RTrim(left, c);
    if r != [] {
      assert r[0] == left[0];
    }
    if s == [] || (s[0] != c && s[|s| - 1] != c) {
      assert left == s;
    }
  }

  /** The cut `trim` makes: c's before position i and from position j on. */
  lemma TrimCut(s: string, c: char)
    ensures CutFrom(s, RTrim(LTrim(s, c), c), c)
  {
    var left := LTrim(s, c);
    CutOfSuffixPrefix(s, left, RTrim(left, c), c);
  }

  /** A prefix r of a suffix `left` of s, with only c's dropped each time, is a cut of s. */
  lemma CutOfSuffixPrefix(s: string, left: string, r: string, c: char)
    requires |left| <= |s| && left == s[|s| - |left|..]
    requires forall k :: 0 <= k < |s| - |left| ==> s[k] == c
    requires |r| <= |left| && r == left[..|r|]
    requires forall k :: |r| <= k < |left| ==> left[k] == c
    ensures CutFrom(s, r, c)
  {
    var i := |s| - |left|;
    var j := i + |r|;
    assert r == s[i..j];
    forall k | j <= k < |s| ensures s[k] == c {
      assert s[k] == left[k - i];
    }
    assert CutAt(s, r, c, i, j);
  }

  /** Only c's in front of a string that does not start with c: `ltrim` removes exactly them. */
  lemma {:induction false} LTrimPadding(pad: string, x: string, c: char)
    requires forall k :: 0 <= k < |pad| ==> pad[k] == c
    requires x == [] || x[0] != c
    ensures LTrim(pad + x, c) == x
    decreases |pad|
  {
    if pad != [] {
      assert (pad + x)[1..] == pad[1..] + x;
      LTrimPadding(pad[1..], x, c);
    }
  }

  /** Only c's after a string that does not end with c: `rtrim` removes exactly them. */
  lemma {:induction false} RTrimPadding(x: string, pad: string, c: char)
    requires forall k :: 0 <= k < |pad| ==> pad[k] == c
    requires x == [] || x[|x| - 1] != c
    ensures RTrim(x + pad, c) == x
    decreases |pad|
  {
    if pad != [] {
      assert (x + pad)[..|x + pad| - 1] == x + pad[..|pad| - 1];
      RTrimPadding(x, pad[..|pad| - 1], c);
    }
  }

  /** `trim` cuts off exactly the runs of c around a string that neither
      starts nor ends with c. */
  lemma TrimPadding(left: string, x: string, right: string, c: char)
    requires forall k :: 0 <= k < |left| ==> left[k] == c
    requires forall k :: 0 <= k < |right| ==> right[k] == c
    requires x == [] || (x[0] != c && x[|x| - 1] != c)
    ensures Trim(left + x + right, c) == x
  {
    if x == [] {
      assert left + x + right == left + right;
      LTrimPadding(left + right, [], c);
      assert left + right + [] == left + right;
    } else {
      assert left + x + right == left + (x + right);
      LTrimPadding(left, x + right, c);
      RTrimPadding(x, right, c);
    }
  }

  /** ASCII upper case, as `ucfirst` does from PHP 8.2 on, or in the C locale. */
  function Upper(c: char): char
  {
    if 'a' <= c <= 'z' then (c as int - 32) as char else c
  }

  /** `ucfirst($s)`: the first character upper-cased, the rest unchanged. */
  function UcFirst(s: string): (r: string)
    ensures |r| == |s|
    ensures s != [] ==> r[0] == Upper(s[0]) && r[1..] == s[1..]
  {
    if s == [] then s else [Upper(s[0])] + s[1..]
  }

  // ---------------------------------------------------------------- strpos

  /** True when needle occurs in s starting at position i. */
  predicate OccursAt(s: string, needle: string, i: nat)
  {
    i + |needle| <= |s| && s[i..i + |needle|] == needle
  }

  /** `strpos($s, $needle)`: the first position of needle in s, or None for PHP's `false`. */
  function StrPos(s: string, needle: string): (r: Option<nat>)
    ensures r.Some? ==> OccursAt(s, needle, r.value)
    ensures r.Some? ==> forall j: nat :: j < r.value ==> !OccursAt(s, needle, j)
    ensures r.None? ==> forall j: nat :: !OccursAt(s, needle, j)
  {
    StrPosFrom(s, needle, 0)
  }

  function StrPosFrom(s: string, needle: string, i: nat): (r: Option<nat>)
    requires i <= |s|
    ensures r.Some? ==> i <= r.value && OccursAt(s, needle, r.value)
    ensures r.Some? ==> forall j: nat :: i <= j < r.value ==> !OccursAt(s, needle, j)
    ensures r.None? ==> forall j: nat :: i <= j ==> !OccursAt(s, needle, j)
    decreases |s| - i
  {
    if OccursAt(s, needle, i) then Some(i)
    else if i == |s| then None
    else StrPosFrom(s, needle, i + 1)
  }

  /** If needle starts with a character that it contains nowhere else, an
      occurrence right after a prefix free of needle is the first one. */
  lemma {:induction false} StrPosAfter(pre: string, needle: string, rest: string)
    requires |needle| > 0 && forall k :: 0 < k < |needle| ==> needle[k] != needle[0]
    requires forall j: nat :: !OccursAt(pre, needle, j)
    ensures StrPos(pre + needle + rest, needle) == Some(|pre|)
  {
    var s := pre + needle + rest;
    assert OccursAt(s, needle, |pre|) by {
      assert s[|pre|..|pre| + |needle|] == needle;
    }
    forall j: nat | j < |pre|
      ensures !OccursAt(s, needle, j)
    {
      if j + |needle| <= |pre| {
        assert !OccursAt(pre, needle, j);
        assert pre[j..j + |needle|] == s[j..j + |needle|];
      } else if j + |needle| <= |s| {
        // The window would straddle the boundary: the character at |pre| is
        // needle[0], but inside the window it sits where needle has another one.
        var k := |pre| - j;
        assert s[j..j + |needle|][k] == needle[0] != needle[k];
      }
    }
  }

  // ---------------------------------------------------------------- explode

  /** `explode($d, $s)` for a one-character delimiter: the pieces between
      occurrences of d, at least one, none containing d. */
  function Explode(s: string, d: char): (parts: seq<string>)
    ensures |parts| >= 1
    ensures forall i :: 0 <= i < |parts| ==> d !in parts[i]
    ensures s == [] ==> parts == [""]
    ensures parts[0] == [] ==> s == [] || s[0] == d
    decreases |s|
  {
    if s == [] then [""]
    else
      var rest := Explode(s[1..], d);
      if s[0] == d then [""] + rest
      else [[s[0]] + rest[0]] + rest[1..]
  }

  /** `implode($d, $parts)`: the pieces joined by d. */
  function Implode(parts: seq<string>, d: char): string
  {
    if parts == [] then ""
    else if |parts| == 1 then parts[0]
    else parts[0] + [d] + Implode(parts[1..], d)
  }

  /** Joining the pieces again gives back the exploded string. */
  lemma {:induction false} ImplodeExplode(s: string, d: char)
    ensures Implode(Explode(s, d), d) == s
    decreases |s|
  {
    if s != [] {
      var rest := Explode(s[1..], d);
      ImplodeExplode(s[1..], d);
      if s[0] == d {
        assert Explode(s, d) == [""] + rest;
        assert ([""] + rest)[1..] == rest;
        assert s == [d] + s[1..];
      } else if |rest| == 1 {
        assert s == [s[0]] + s[1..];
      } else {
        var parts := Explode(s, d);
        assert parts[1..] == rest[1..];
        assert s == [s[0]] + s[1..];
      }
    }
  }

  /** A string free of the delimiter explodes into itself alone. */
  lemma {:induction false} ExplodeWhole(a: string, d: char)
    requires d !in a
    ensures Explode(a, d) == [a]
    decreases |a|
  {
    if a != [] {
      ExplodeWhole(a[1..], d);
      assert [a[0]] + a[1..] == a;
    }
  }

  /** A delimiter-free piece followed by the delimiter comes off as the first part. */
  lemma {:induction false} ExplodeCons(a: string, d: char, t: string)
    requires d !in a
    ensures Explode(a + [d] + t, d) == [a] + Explode(t, d)
    decreases |a|
  {
    var s := a + [d] + t;
    if a == [] {
      assert s[1..] == t;
    } else {
      assert s[1..] == a[1..] + [d] + t;
      ExplodeCons(a[1..], d, t);
      assert [a[0]] + a[1..] == a;
    }
  }

  /** Pieces free of the delimiter survive a round trip through implode and explode. */
  lemma {:induction false} ExplodeImplode(parts: seq<string>, d: char)
    requires |parts| >= 1
    requires forall i :: 0 <= i < |parts| ==> d !in parts[i]
    ensures Explode(Implode(parts, d), d) == parts
    decreases |parts|
  {
    if |parts| == 1 {
      ExplodeWhole(parts[0], d);
    } else {
      ExplodeImplode(parts[1..], d);
      ExplodeCons(parts[0], d, Implode(parts[1..], d));
      assert [parts[0]] + parts[1..] == parts;
    }
  }

  // ---------------------------------------------------------------- integers

  predicate IsDigit(c: char)
  {
    '0' <= c <= '9'
  }

  predicate AllDigits(s: string)
  {
    forall k :: 0 <= k < |s| ==> IsDigit(s[k])
  }

  function DigitValue(c: char): nat
    requires IsDigit(c)
  {
    c as int - '0' as int
  }

  function Digit(n: nat): (c: char)
    requires n < 10
    ensures IsDigit(c) && DigitValue(c) == n
  {
    ('0' as int + n) as char
  }

  /** The longest prefix of s made of decimal digits. */
  function DigitPrefix(s: string): (r: string)
    ensures |r| <= |s| && r == s[..|r|] && AllDigits(r)
    ensures |r| < |s| ==> !IsDigit(s[|r|])
    ensures AllDigits(s) ==> r == s
  {
    if s != [] && IsDigit(s[0]) then [s[0]] + DigitPrefix(s[1..]) else []
  }

  /** The value of a string of decimal digits, most significant digit first. */
  function DecimalValue(ds: string): nat
    requires AllDigits(ds)
  {
    if ds == [] then 0 else 10 * DecimalValue(ds[..|ds| - 1]) + DigitValue(ds[|ds| - 1])
  }

  /** PHP's `(int)` conversion of a string, which `bind_param('i', …)` applies:
      an optional sign, then the leading decimal digits; 0 when there are none. */
  function IntVal(s: string): (n: int)
    ensures n < 0 ==> s != [] && s[0] == '-'
    ensures (s == [] || (!IsDigit(s[0]) && s[0] != '-' && s[0] != '+')) ==> n == 0
    ensures AllDigits(s) ==> n == DecimalValue(s)
  {
    if s != [] && s[0] == '-' then -(DecimalValue(DigitPrefix(s[1..])) as int)
    else if s != [] && s[0] == '+' then DecimalValue(DigitPrefix(s[1..]))
    else DecimalValue(DigitPrefix(s))
  }

  /** The canonical decimal text of n: digits only, no leading zero. */
  function DecimalString(n: nat): (s: string)
    ensures s != [] && AllDigits(s)
    ensures s[0] == '0' ==> n == 0
  {
    if n < 10 then [Digit(n)] else DecimalString(n / 10) + [Digit(n % 10)]
  }

  lemma {:induction false} DigitPrefixOfDigits(s: string)
    requires AllDigits(s)
    ensures DigitPrefix(s) == s
    decreases |s|
  {
    if s != [] {
      DigitPrefixOfDigits(s[1..]);
      assert [s[0]] + s[1..] == s;
    }
  }

  lemma {:induction false} DecimalValueOfString(n: nat)
    ensures DecimalValue(DecimalString(n)) == n
  {
    if n >= 10 {
      DecimalValueOfString(n / 10);
      var s := DecimalString(n);
      assert s[..|s| - 1] == DecimalString(n / 10);
    }
  }

  /** Printing an id and converting it back with `(int)` gives the id. */
  lemma IntValOfDecimal(n: nat)
    ensures IntVal(DecimalString(n)) == n
  {
    var s := DecimalString(n);
    assert IsDigit(s[0]);
    DigitPrefixOfDigits(s);
    DecimalValueOfString(n);
  }

  /** The text of an id is truthy exactly when the id is not 0. */
  lemma TruthyDecimal(n: nat)
    ensures Truthy(Some(DecimalString(n))) <==> n != 0
  {
    if n == 0 {
      assert DecimalString(0) == "0";
    }
  }
}
