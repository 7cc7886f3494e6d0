/**
 * The handful of java.lang.String and ucar.unidata.util.StringUtil2 operations the modelled code uses,
 * on `seq<char>`. Case conversion and digits are ASCII only.
 */
module JavaStrings {
  import opened Wrappers
  import opened JavaInt

  /** `s.indexOf(c)`: the first position of `c`, or -1. */
  function IndexOfChar(s: string, c: char): (r: int)
    ensures -1 <= r < |s|
    ensures r == -1 <==> c !in s
    ensures r >= 0 ==> s[r] == c && c !in s[..r]
  {
    if s == [] then -1
    else if s[0] == c then 0
    else
      var k := IndexOfChar(s[1..], c);
      assert s[1..][..if k < 0 then 0 else k] == s[1..if k < 0 then 1 else k + 1];
      if k < 0 then -1 else k + 1
  }

  /** `s.lastIndexOf(c)`: the last position of `c`, or -1. */
  function LastIndexOfChar(s: string, c: char): (r: int)
    ensures -1 <= r < |s|
    ensures r == -1 <==> c !in s
    ensures r >= 0 ==> s[r] == c && forall i :: r < i < |s| ==> s[i] != c
  {
    if s == [] then -1
    else if s[|s| - 1] == c then |s| - 1
    else
      var k := LastIndexOfChar(s[..|s| - 1], c);
      assert k < 0 ==> s == s[..|s| - 1] + [s[|s| - 1]];
      k
  }

  /** `s.indexOf(sub)`: the first position where `sub` occurs, or -1 (0 for the empty `sub`). */
  function IndexOf(s: string, sub: string): (r: int)
    ensures -1 <= r <= |s|
    ensures r >= 0 ==> sub <= s[r..] && forall j :: 0 <= j < r ==> !(sub <= s[j..])
    ensures r == -1 <==> forall j :: 0 <= j <= |s| ==> !(sub <= s[j..])
  {
    if sub <= s then 0
    else if s == [] then -1
    else
      var k := IndexOf(s[1..], sub);
      TailSuffixes(s);
      if k < 0 then -1 else k + 1
  }

  /** The suffixes of `s[1..]` are those of `s` past its first character. */
  lemma TailSuffixes(s: string)
    requires s != []
    ensures forall j :: 1 <= j <= |s| ==> s[j..] == s[1..][j - 1..]
  {
  }

  /** `s.contains(sub)`. */
  predicate Contains(s: string, sub: string)
  {
    IndexOf(s, sub) >= 0
  }

  /** `s.endsWith(suffix)`. */
  predicate EndsWith(s: string, suffix: string)
  {
    |suffix| <= |s| && s[|s| - |suffix|..] == suffix
  }

  /** `StringUtil2.replace(s, c, with)`: every occurrence of the character `c` replaced by `with`. */
  function ReplaceChar(s: string, c: char, with: string): (r: string)
    ensures c !in with ==> c !in r
    ensures c !in s ==> r == s
    ensures |with| == 1 ==> |r| == |s|
  {
    if s == [] then []
    else (if s[0] == c then with else [s[0]]) + ReplaceChar(s[1..], c, with)
  }

  /** `StringUtil2.remove(s, c)`: every occurrence of `c` deleted. */
  function RemoveChar(s: string, c: char): (r: string)
    ensures c !in r
    ensures |r| <= |s|
    ensures c !in s ==> r == s
  {
    if s == [] then []
    else
      assert s == [s[0]] + s[1..];
      (if s[0] == c then [] else [s[0]]) + RemoveChar(s[1..], c)
  }

  /** `StringUtil2.remove` keeps every other character as often as it occurs. */
  lemma {:induction false} RemoveCharKeepsOthers(s: string, c: char)
    ensures multiset(RemoveChar(s, c)) == multiset(s)[c := 0]
  {
    if s != [] {
      assert s == [s[0]] + s[1..];
      RemoveCharKeepsOthers(s[1..], c);
    }
  }

  /** `StringUtil2.removeFromEnd(s, c)`: every trailing `c` deleted. */
  function RemoveFromEnd(s: string, c: char): (r: string)
    ensures r <= s
    ensures r == [] || r[|r| - 1] != c
    ensures forall i :: |r| <= i < |s| ==> s[i] == c
  {
    if s != [] && s[|s| - 1] == c then RemoveFromEnd(s[..|s| - 1], c) else s
  }

  /** ASCII `Character.toLowerCase`. */
  function LowerChar(c: char): (r: char)
    ensures 'A' <= c <= 'Z' ==> 'a' <= r <= 'z'
    ensures !('A' <= c <= 'Z') ==> r == c
  {
    if 'A' <= c <= 'Z' then (c as int - 'A' as int + 'a' as int) as char else c
  }

  /** `s.toLowerCase()`, ASCII letters only. */
  function ToLower(s: string): (r: string)
    ensures |r| == |s| && forall i :: 0 <= i < |s| ==> r[i] == LowerChar(s[i])
  {
    seq(|s|, i requires 0 <= i < |s| => LowerChar(s[i]))
  }

  /** `a.equalsIgnoreCase(b)`, ASCII letters only. */
  predicate EqualsIgnoreCase(a: string, b: string)
  {
    ToLower(a) == ToLower(b)
  }

  /** `String.trim` removes the characters up to and including U+0020 at both ends. */
  predicate IsTrimmed(c: char) { c <= ' ' }

  function TrimStart(s: string): (r: string)
    ensures |r| <= |s| && r == s[|s| - |r|..]
    ensures r == [] || !IsTrimmed(r[0])
    ensures forall i :: 0 <= i < |s| - |r| ==> IsTrimmed(s[i])
  {
    s[TrimmedFrom(s, 0)..]
  }

  /** The first position at or after `i` whose character `trim` keeps, `|s|` when there is none. */
  function TrimmedFrom(s: string, i: nat): (n: nat)
    requires i <= |s|
    ensures i <= n <= |s| && (n < |s| ==> !IsTrimmed(s[n]))
    ensures forall j :: i <= j < n ==> IsTrimmed(s[j])
    decreases |s| - i
  {
    if i < |s| && IsTrimmed(s[i]) then TrimmedFrom(s, i + 1) else i
  }

  function TrimEnd(s: string): (r: string)
    ensures r <= s
    ensures r == [] || !IsTrimmed(r[|r| - 1])
    ensures forall i :: |r| <= i < |s| ==> IsTrimmed(s[i])
  {
    if s != [] && IsTrimmed(s[|s| - 1]) then TrimEnd(s[..|s| - 1]) else s
  }

  /** `s.trim()`. */
  function Trim(s: string): string
  {
    TrimEnd(TrimStart(s))
  }

  /** `w` occurs in `s` at position `k`. */
  predicate OccursAt(s: string, w: string, k: int)
  {
    0 <= k && k + |w| <= |s| && s[k..k + |w|] == w
  }

  /** An occurrence at `k` makes `s.contains(w)` true. */
  lemma ContainsAt(s: string, w: string, k: int)
    requires OccursAt(s, w, k)
    ensures Contains(s, w)
  {
    assert w <= s[k..];
  }

  /** `s.contains(w)` has an occurrence, the one `indexOf` finds. */
  lemma ContainsWitness(s: string, w: string) returns (k: int)
    requires Contains(s, w)
    ensures OccursAt(s, w, k)
  {
    k := IndexOf(s, w);
  }

  /** `s.trim()` is the slice `s[a..b]`, with only trimmed characters before and after it. */
  lemma TrimSlice(s: string) returns (a: nat, b: nat)
    ensures a <= b <= |s| && Trim(s) == s[a..b]
    ensures forall i :: 0 <= i < a ==> IsTrimmed(s[i])
    ensures forall i :: b <= i < |s| ==> IsTrimmed(s[i])
  {
    var t := TrimStart(s);
    a := |s| - |t|;
    var u := TrimEnd(t);
    b := a + |u|;
    forall i | b <= i < |s|
      ensures IsTrimmed(s[i])
    {
      assert s[i] == t[i - a];
    }
  }

  /** An occurrence in the slice `s[a..b]` is an occurrence in `s`, shifted by `a`. */
  lemma {:induction false} OccursFromSlice(s: string, a: nat, b: nat, w: string, j: int)
    requires a <= b <= |s| && OccursAt(s[a..b], w, j)
    ensures OccursAt(s, w, a + j)
  {
    forall i | 0 <= i < |w|
      ensures s[a + j + i] == w[i]
    {
      assert w[i] == s[a..b][j + i];
    }
    assert s[a + j..a + j + |w|] == w;
  }

  /** An occurrence of a word that starts and ends untrimmed lies inside the untrimmed slice. */
  lemma {:induction false} OccursInSlice(s: string, a: nat, b: nat, w: string, k: int)
    requires a <= b <= |s| && |w| > 0 && !IsTrimmed(w[0]) && !IsTrimmed(w[|w| - 1]) && OccursAt(s, w, k)
    requires forall i :: 0 <= i < a ==> IsTrimmed(s[i])
    requires forall i :: b <= i < |s| ==> IsTrimmed(s[i])
    ensures OccursAt(s[a..b], w, k - a)
  {
    assert s[k] == w[0] && s[k + |w| - 1] == w[|w| - 1];
    assert a <= k && k + |w| <= b;
    forall i | 0 <= i < |w|
      ensures s[a..b][k - a + i] == w[i]
    {
      assert w[i] == s[k..k + |w|][i];
    }
    assert s[a..b][k - a..k - a + |w|] == w;
  }

  /** Whatever the slice `s[a..b]` contains, `s` contains. */
  lemma {:induction false} ContainsFromSlice(s: string, a: nat, b: nat, w: string)
    requires a <= b <= |s| && Contains(s[a..b], w)
    ensures Contains(s, w)
  {
    var j := IndexOf(s[a..b], w);
    PrefixOccurs(s[a..b], w, j);
    OccursFromSlice(s, a, b, w, j);
    PrefixOccurs(s, w, a + j);
  }

  /** A word that starts and ends untrimmed, contained in `s`, is contained in its untrimmed slice. */
  lemma {:induction false} ContainsInSlice(s: string, a: nat, b: nat, w: string)
    requires a <= b <= |s| && |w| > 0 && !IsTrimmed(w[0]) && !IsTrimmed(w[|w| - 1]) && Contains(s, w)
    requires forall i :: 0 <= i < a ==> IsTrimmed(s[i])
    requires forall i :: b <= i < |s| ==> IsTrimmed(s[i])
    ensures Contains(s[a..b], w)
  {
    var k := ContainsWitness(s, w);
    OccursInSlice(s, a, b, w, k);
    ContainsAt(s[a..b], w, k - a);
  }

  /** A word that starts and ends with a character `trim` keeps occurs in `s.trim()` exactly when it occurs in `s`. */
  lemma ContainsTrim(s: string, w: string)
    requires |w| > 0 && !IsTrimmed(w[0]) && !IsTrimmed(w[|w| - 1])
    ensures Contains(Trim(s), w) <==> Contains(s, w)
  {
    var a, b := TrimSlice(s);
    if Contains(s[a..b], w) {
      ContainsFromSlice(s, a, b, w);
    }
    if Contains(s, w) {
      ContainsInSlice(s, a, b, w);
    }
  }

  /** `w <= s[k..]`, the prefix test `indexOf` is defined by, is an occurrence at `k`. */
  lemma PrefixOccurs(s: string, w: string, k: int)
    requires 0 <= k <= |s|
    ensures w <= s[k..] <==> OccursAt(s, w, k)
  {
    if k + |w| <= |s| {
      assert s[k..][..|w|] == s[k..k + |w|];
    }
  }

  /** `indexOf` finds the first occurrence. */
  lemma IndexOfFirst(s: string, w: string)
    requires IndexOf(s, w) >= 0
    ensures OccursAt(s, w, IndexOf(s, w))
    ensures forall j :: 0 <= j < IndexOf(s, w) ==> !OccursAt(s, w, j)
  {
    var r := IndexOf(s, w);
    PrefixOccurs(s, w, r);
    forall j | 0 <= j < r
      ensures !OccursAt(s, w, j)
    {
      PrefixOccurs(s, w, j);
    }
  }

  /** An occurrence at `k` with none before it is what `indexOf` returns. */
  lemma IndexOfAt(s: string, w: string, k: int)
    requires OccursAt(s, w, k)
    requires forall j :: 0 <= j < k ==> !OccursAt(s, w, j)
    ensures IndexOf(s, w) == k
  {
    PrefixOccurs(s, w, k);
    var r := IndexOf(s, w);
    assert r >= 0;
    PrefixOccurs(s, w, r);
  }

  /** With no occurrence anywhere, `indexOf` returns -1. */
  lemma IndexOfAbsent(s: string, w: string)
    requires forall j :: 0 <= j <= |s| ==> !OccursAt(s, w, j)
    ensures IndexOf(s, w) == -1
  {
    var r := IndexOf(s, w);
    PrefixOccurs(s, w, if r >= 0 then r else 0);
  }

  /** `indexOf(c)` is the first position holding `c`. */
  lemma IndexOfCharAt(s: string, c: char, k: int)
    requires 0 <= k < |s| && s[k] == c && c !in s[..k]
    ensures IndexOfChar(s, c) == k
  {
    var r := IndexOfChar(s, c);
    assert r >= 0;
  }

  /** `lastIndexOf(c)` is the last position holding `c`. */
  lemma LastIndexOfCharAt(s: string, c: char, k: int)
    requires 0 <= k < |s| && s[k] == c && c !in s[k + 1..]
    ensures LastIndexOfChar(s, c) == k
  {
    var r := LastIndexOfChar(s, c);
    assert r >= 0;
  }

  /** `StringUtil2.remove` drops a removed character at `k` and works on both sides of it separately. */
  lemma RemoveCharAt(s: string, c: char, k: int)
    requires 0 <= k < |s| && s[k] == c
    ensures RemoveChar(s, c) == RemoveChar(s[..k], c) + RemoveChar(s[k + 1..], c)
  {
    var mid: string := [c];
    assert s == s[..k] + (mid + s[k + 1..]);
    RemoveCharConcat(s[..k], mid + s[k + 1..], c);
    assert (mid + s[k + 1..])[1..] == s[k + 1..];
    assert RemoveChar(mid + s[k + 1..], c) == RemoveChar(s[k + 1..], c);
  }

  /** Before the first removed character nothing changes. */
  lemma RemoveCharBefore(s: string, c: char, k: int)
    requires 0 <= k < |s| && s[k] == c && c !in s[..k]
    ensures RemoveChar(s, c) == s[..k] + RemoveChar(s[k + 1..], c)
  {
    RemoveCharAt(s, c, k);
  }

  // ---------------------------------------------------------------- Integer.parseInt

  predicate IsDigit(c: char) { '0' <= c <= '9' }

  predicate AllDigits(s: string) { forall i :: 0 <= i < |s| ==> IsDigit(s[i]) }

  /** Value of a string of decimal digits, most significant first. */
  function DigitsValue(s: string): (v: nat)
    requires AllDigits(s)
  {
    if s == [] then 0 else DigitsValue(s[..|s| - 1]) * 10 + (s[|s| - 1] as int - '0' as int)
  }

  /**
   * `Integer.parseInt(s)`: an optional '-' or '+' and at least one digit, in the int range;
   * `None` where Java throws NumberFormatException.
   */
  function ParseInt(s: string): (r: Option<int>)
    ensures r.Some? ==> IsInt32(r.value)
    ensures r.Some? ==> s != []
  {
    if s == [] then None
    else
      var neg := s[0] == '-';
      var digits := if s[0] == '-' || s[0] == '+' then s[1..] else s;
      if digits == [] || !AllDigits(digits) then None
      else
        var mag: int := DigitsValue(digits);
        var v := if neg then -mag else mag;
        if IsInt32(v) then Some(v) else None
  }

  /** Decimal text of a natural number, without leading zeros. */
  function Decimal(n: nat): (r: string)
    ensures r != [] && AllDigits(r)
    ensures r[0] != '+' && r[0] != '-'
    decreases n
  {
    var d := ['0' + (n % 10) as char];
    if n < 10 then d else Decimal(n / 10) + d
  }

  lemma {:induction false} DecimalValue(n: nat)
    ensures DigitsValue(Decimal(n)) == n
    decreases n
  {
    var d := ['0' + (n % 10) as char];
    if n >= 10 {
      DecimalValue(n / 10);
      assert Decimal(n)[..|Decimal(n)| - 1] == Decimal(n / 10);
    }
  }

  /** `Integer.parseInt` reads back the decimal text of every non-negative int. */
  lemma ParseDecimal(n: nat)
    requires n <= INT_MAX
    ensures ParseInt(Decimal(n)) == Some(n)
  {
    DecimalValue(n);
  }

  // ---------------------------------------------------------------- concatenation

  lemma {:induction false} ReplaceCharConcat(a: string, b: string, c: char, with: string)
    ensures ReplaceChar(a + b, c, with) == ReplaceChar(a, c, with) + ReplaceChar(b, c, with)
    decreases |a|
  {
    if a != [] {
      var head := if a[0] == c then with else [a[0]];
      assert (a + b)[0] == a[0] && (a + b)[1..] == a[1..] + b;
      assert ReplaceChar(a + b, c, with) == head + ReplaceChar(a[1..] + b, c, with);
      assert ReplaceChar(a, c, with) == head + ReplaceChar(a[1..], c, with);
      ReplaceCharConcat(a[1..], b, c, with);
      assert head + (ReplaceChar(a[1..], c, with) + ReplaceChar(b, c, with)) == (head + ReplaceChar(a[1..], c, with)) + ReplaceChar(b, c, with);
    } else {
      assert a + b == b;
    }
  }

  lemma {:induction false} RemoveCharConcat(a: string, b: string, c: char)
    ensures RemoveChar(a + b, c) == RemoveChar(a, c) + RemoveChar(b, c)
    decreases |a|
  {
    if a != [] {
      var head: string := if a[0] == c then [] else [a[0]];
      assert (a + b)[0] == a[0] && (a + b)[1..] == a[1..] + b;
      assert RemoveChar(a + b, c) == head + RemoveChar(a[1..] + b, c);
      assert RemoveChar(a, c) == head + RemoveChar(a[1..], c);
      RemoveCharConcat(a[1..], b, c);
      assert head + (RemoveChar(a[1..], c) + RemoveChar(b, c)) == (head + RemoveChar(a[1..], c)) + RemoveChar(b, c);
    } else {
      assert a + b == b;
    }
  }

  lemma NoCharAfter(a: string, c: char, b: string)
    requires c !in b
    ensures (a + [c] + b)[|a|] == c
    ensures forall i :: |a| < i < |a + [c] + b| ==> (a + [c] + b)[i] != c
  {
    var ac := a + [c];
    var s := ac + b;
    assert s[|a|] == ac[|a|];
    forall i | |ac| <= i < |s|
      ensures s[i] != c
    {
      assert s[i] == b[i - |ac|];
    }
  }

  /** The last `c` of `a + [c] + b` is the one after `a` when `b` holds none. */
  lemma LastIndexOfCharSplit(a: string, c: char, b: string)
    requires c !in b
    ensures LastIndexOfChar(a + [c] + b, c) == |a|
  {
    NoCharAfter(a, c, b);
    var r := LastIndexOfChar(a + [c] + b, c);
    assert |a| <= r;
  }

  /**
   * `pos < 0 ? s : s.substring(pos + 1)` with `pos` the last `c`: the text after the last `c`, all of
   * `s` when there is none. It holds no `c` and ends `s`, right after a `c` when it is shorter.
   */
  function AfterLast(s: string, c: char): (t: string)
    ensures (c !in s ==> t == s) && c !in t && |t| <= |s| && t == s[|s| - |t|..]
    ensures t != s ==> s[|s| - |t| - 1] == c
    ensures forall x :: x in t ==> x in s
  {
    var pos := LastIndexOfChar(s, c);
    var t := s[pos + 1..];
    assert c !in t && forall x :: x in t ==> x in s by {
      forall i | 0 <= i < |t|
        ensures t[i] == s[pos + 1 + i] && t[i] != c
      {
      }
    }
    assert |s| - |t| == pos + 1;
    t
  }

  /** A character missing from a text is missing from each of its prefixes. */
  lemma PrefixLacks(s: string, n: nat, c: char)
    requires n <= |s| && c !in s
    ensures c !in s[..n]
  {
    assert forall i :: 0 <= i < n ==> s[..n][i] == s[i];
  }

  /** The text before the last `c` holds only characters of `s`, and no `c` follows that last one. */
  lemma BeforeLastChar(s: string, c: char)
    requires LastIndexOfChar(s, c) >= 0
    ensures var pos := LastIndexOfChar(s, c);
      s[pos] == c && c !in s[pos + 1..] && (forall x :: x in s[..pos] ==> x in s)
  {
    var pos := LastIndexOfChar(s, c);
    forall i | pos + 1 <= i < |s|
      ensures s[pos + 1..][i - pos - 1] == s[i] != c
    {
    }
    forall x | x in s[..pos]
      ensures x in s
    {
      var i :| 0 <= i < pos && s[..pos][i] == x;
      assert s[i] == x;
    }
  }

  /**
   * `pos > 0 ? s.substring(0, pos) : s` with `pos` the last `c`: `s` cut before its last `c` unless
   * that is the first character. The result is a prefix of `s`, all of it exactly when nothing is
   * cut, and otherwise followed in `s` by that last `c`.
   */
  function CutBeforeLast(s: string, c: char): (r: string)
    ensures (forall x :: x in r ==> x in s) && r <= s && (r == s <==> LastIndexOfChar(s, c) <= 0)
    ensures r != s ==> 0 < |r| && s[|r|] == c && c !in s[|r| + 1..]
    ensures LastIndexOfChar(s, c) > 0 ==> |r| == LastIndexOfChar(s, c)
  {
    var pos := LastIndexOfChar(s, c);
    if pos > 0 then
      BeforeLastChar(s, c);
      assert |s[..pos]| == pos;
      s[..pos]
    else
      s
  }

  /** Replacing a character brings in no characters besides those of the replacement. */
  lemma {:induction false} ReplaceCharKeeps(s: string, c: char, with: string, x: char)
    requires x !in s && x !in with
    ensures x !in ReplaceChar(s, c, with)
    decreases |s|
  {
    if s != [] {
      assert x !in s[1..] by { assert forall i :: 0 <= i < |s| - 1 ==> s[1..][i] == s[i + 1]; }
      ReplaceCharKeeps(s[1..], c, with, x);
    }
  }
}
