/**
  The string primitives the source uses, restricted to what the model needs:
  `toLowerCase` (ASCII letters only), `trim` (ASCII white space only),
  `includes`, `startsWith`, `split` on a one-character separator, `replace`
  of the first occurrence of a character, and decimal rendering of a number.
 */
module Strings {
  import opened Common

  function LowerChar(c: char): char
  {
    if 'A' <= c <= 'Z' then (c as int + 32) as char else c
  }

  /** `s.toLowerCase()` for ASCII letters; every other character is kept. */
  function Lower(s: string): (r: string)
    ensures |r| == |s|
    ensures forall i :: 0 <= i < |s| ==> r[i] == LowerChar(s[i])
  {
    seq(|s|, i requires 0 <= i < |s| => LowerChar(s[i]))
  }

  /** Lowering twice is lowering once. */
  lemma LowerIdempotent(s: string)
    ensures Lower(Lower(s)) == Lower(s)
  {
  }

  lemma LowerOfConcat(a: string, b: string)
    ensures Lower(a + b) == Lower(a) + Lower(b)
  {
  }

  /** White space as far as this model is concerned: the ASCII members of
      JavaScript's `\s` class (space, tab, line feed, vertical tab, form feed,
      carriage return). */
  predicate IsSpace(c: char)
  {
    c == ' ' || c == '\t' || c == '\n' || c == '\r' || c == 11 as char || c == 12 as char
  }

  lemma LowerKeepsSpace(s: string)
    ensures forall i :: 0 <= i < |s| ==> (IsSpace(Lower(s)[i]) <==> IsSpace(s[i]))
  {
  }

  lemma LowerCharSpace(c: char)
    ensures IsSpace(LowerChar(c)) <==> IsSpace(c)
  {
  }

  /** The first position at or after `lo` that is not white space, or `|s|`. */
  function FirstNonSpace(s: string, lo: nat): (k: nat)
    requires lo <= |s|
    ensures lo <= k <= |s|
    ensures forall i :: lo <= i < k ==> IsSpace(s[i])
    ensures k == |s| || !IsSpace(s[k])
    decreases |s| - lo
  {
    if lo < |s| && IsSpace(s[lo]) then FirstNonSpace(s, lo + 1) else lo
  }

  /** The end of `s[lo..hi]` once its trailing white space is dropped. */
  function NonSpaceEnd(s: string, lo: nat, hi: nat): (k: nat)
    requires lo <= hi <= |s|
    ensures lo <= k <= hi
    ensures forall i :: k <= i < hi ==> IsSpace(s[i])
    ensures k == lo || !IsSpace(s[k - 1])
    decreases hi - lo
  {
    if lo < hi && IsSpace(s[hi - 1]) then NonSpaceEnd(s, lo, hi - 1) else hi
  }

  /** `s.trim()`: the longest slice of `s` that neither starts nor ends with
      white space, obtained by removing white space only. */
  function Trim(s: string): (r: string)
    ensures exists i :: TrimmedAt(s, r, i)
    ensures |r| == 0 || (!IsSpace(r[0]) && !IsSpace(r[|r| - 1]))
  {
    var lo := FirstNonSpace(s, 0);
    var hi := NonSpaceEnd(s, lo, |s|);
    assert TrimmedAt(s, s[lo..hi], lo);
    s[lo..hi]
  }

  /** `r` is the slice of `s` starting at `i`, and only white space lies
      outside it. */
  ghost predicate TrimmedAt(s: string, r: string, i: int)
  {
    && 0 <= i <= |s| - |r|
    && r == s[i..i + |r|]
    && (forall k :: 0 <= k < i ==> IsSpace(s[k]))
    && (forall k :: i + |r| <= k < |s| ==> IsSpace(s[k]))
  }

  /** A string with no white space is its own trim. */
  lemma TrimNoSpace(s: string)
    requires forall i :: 0 <= i < |s| ==> !IsSpace(s[i])
    ensures Trim(s) == s
  {
    assert FirstNonSpace(s, 0) == 0;
    assert NonSpaceEnd(s, 0, |s|) == |s|;
  }

  /** Trimming is idempotent. */
  lemma TrimIdempotent(s: string)
    ensures Trim(Trim(s)) == Trim(s)
  {
    var t := Trim(s);
    if |t| > 0 {
      assert FirstNonSpace(t, 0) == 0;
      assert NonSpaceEnd(t, 0, |t|) == |t|;
      assert t[0..|t|] == t;
    }
  }

  /** Trim is empty exactly when every character is white space. */
  lemma TrimEmptyIffAllSpace(s: string)
    ensures |Trim(s)| == 0 <==> forall i :: 0 <= i < |s| ==> IsSpace(s[i])
  {
    var lo := FirstNonSpace(s, 0);
    var hi := NonSpaceEnd(s, lo, |s|);
    assert |Trim(s)| == hi - lo;
  }

  /** Lowering commutes with trimming, since it maps white space to white
      space and nothing else to white space. */
  lemma LowerTrimCommute(s: string)
    ensures Trim(Lower(s)) == Lower(Trim(s))
  {
    var l := Lower(s);
    var lo := FirstNonSpace(s, 0);
    var hi := NonSpaceEnd(s, lo, |s|);
    LowerFirstNonSpace(s, 0);
    LowerNonSpaceEnd(s, lo, |s|);
    assert Trim(l) == l[lo..hi];
    assert Trim(s) == s[lo..hi];
    LowerOfSlice(s, lo, hi);
  }

  lemma LowerOfSlice(s: string, lo: nat, hi: nat)
    requires lo <= hi <= |s|
    ensures Lower(s)[lo..hi] == Lower(s[lo..hi])
  {
  }

  lemma {:induction false} LowerFirstNonSpace(s: string, lo: nat)
    requires lo <= |s|
    ensures FirstNonSpace(Lower(s), lo) == FirstNonSpace(s, lo)
    decreases |s| - lo
  {
    if lo < |s| {
      LowerCharSpace(s[lo]);
      if IsSpace(s[lo]) {
        LowerFirstNonSpace(s, lo + 1);
      }
    }
  }

  lemma {:induction false} LowerNonSpaceEnd(s: string, lo: nat, hi: nat)
    requires lo <= hi <= |s|
    ensures NonSpaceEnd(Lower(s), lo, hi) == NonSpaceEnd(s, lo, hi)
    decreases hi - lo
  {
    if lo < hi {
      LowerCharSpace(s[hi - 1]);
      if IsSpace(s[hi - 1]) {
        LowerNonSpaceEnd(s, lo, hi - 1);
      }
    }
  }

  predicate OccursAt(s: string, sub: string, i: int)
  {
    0 <= i && i + |sub| <= |s| && s[i..i + |sub|] == sub
  }

  /** `s.includes(sub)`. */
  predicate Contains(s: string, sub: string)
  {
    exists i :: 0 <= i <= |s| - |sub| && OccursAt(s, sub, i)
  }

  /** Every string includes the empty string. */
  lemma ContainsEmpty(s: string)
    ensures Contains(s, "")
  {
    assert OccursAt(s, "", 0);
  }

  /** `s.startsWith(prefix)`. */
  predicate StartsWith(s: string, prefix: string)
  {
    |prefix| <= |s| && s[..|prefix|] == prefix
  }

  /** The first position of `c` in `s`, if any (`indexOf`). */
  function IndexOfChar(s: string, c: char): (r: Option<nat>)
    ensures r.None? <==> c !in s
    ensures r.Some? ==> r.value < |s| && s[r.value] == c && c !in s[..r.value]
  {
    if |s| == 0 then None
    else if s[0] == c then Some(0)
    else
      match IndexOfChar(s[1..], c)
      case None => None
      case Some(k) => assert s[1..][..k] == s[1..k + 1]; Some(k + 1)
  }

  /** `s.split(sep)` for a one-character separator: the pieces between the
      occurrences of `sep`, empty pieces included. */
  function Split(s: string, sep: char): (parts: seq<string>)
    ensures |parts| >= 1
    ensures forall i :: 0 <= i < |parts| ==> sep !in parts[i]
    decreases |s|
  {
    match IndexOfChar(s, sep)
    case None => [s]
    case Some(k) => [s[..k]] + Split(s[k + 1..], sep)
  }

  /** `parts.join(sep)`. */
  function Join(parts: seq<string>, sep: char): string
  {
    if |parts| == 0 then ""
    else if |parts| == 1 then parts[0]
    else parts[0] + [sep] + Join(parts[1..], sep)
  }

  /** Splitting undoes joining when no piece contains the separator. */
  lemma {:induction false} SplitJoin(parts: seq<string>, sep: char)
    requires |parts| >= 1
    requires forall i :: 0 <= i < |parts| ==> sep !in parts[i]
    ensures Split(Join(parts, sep), sep) == parts
  {
    var s := Join(parts, sep);
    if |parts| == 1 {
      assert IndexOfChar(s, sep).None?;
    } else {
      var rest := Join(parts[1..], sep);
      assert s == parts[0] + [sep] + rest;
      var k := |parts[0]|;
      assert s[k] == sep;
      assert s[..k] == parts[0];
      assert IndexOfChar(s, sep) == Some(k);
      assert s[k + 1..] == rest;
      SplitJoin(parts[1..], sep);
    }
  }

  /** Joining undoes splitting. */
  lemma {:induction false} JoinSplit(s: string, sep: char)
    ensures Join(Split(s, sep), sep) == s
    decreases |s|
  {
    match IndexOfChar(s, sep)
    case None =>
    case Some(k) =>
      var rest := Split(s[k + 1..], sep);
      assert Split(s, sep) == [s[..k]] + rest;
      assert ([s[..k]] + rest)[1..] == rest;
      JoinSplit(s[k + 1..], sep);
      assert s == s[..k] + [sep] + s[k + 1..];
  }

  /** `indexOf` finds `k` when `k` holds `c` and no earlier position does. */
  lemma IndexOfCharAt(s: string, c: char, k: nat)
    requires k < |s| && s[k] == c && c !in s[..k]
    ensures IndexOfChar(s, c) == Some(k)
  {
    assert s[k] in s;
    var j := IndexOfChar(s, c).value;
    assert forall i :: 0 <= i < k ==> s[i] != c by {
      forall i | 0 <= i < k ensures s[i] != c {
        assert s[..k][i] == s[i];
      }
    }
    assert forall i :: 0 <= i < j ==> s[i] != c by {
      forall i | 0 <= i < j ensures s[i] != c {
        assert s[..j][i] == s[i];
      }
    }
  }

  /** Splitting a string that starts with a separator-free piece and a
      separator yields that piece, then the split of the rest. */
  lemma SplitCons(a: string, rest: string, sep: char)
    requires sep !in a
    ensures Split(a + [sep] + rest, sep) == [a] + Split(rest, sep)
  {
    var s := a + [sep] + rest;
    assert s[..|a|] == a;
    IndexOfCharAt(s, sep, |a|);
    assert s[|a| + 1..] == rest;
  }

  /** A string with no separator splits into itself alone. */
  lemma SplitNone(s: string, sep: char)
    requires sep !in s
    ensures Split(s, sep) == [s]
  {
  }

  /** Three separator-free pieces joined by the separator split back. */
  lemma SplitThree(a: string, b: string, c: string, sep: char)
    requires sep !in a && sep !in b && sep !in c
    ensures Split(a + [sep] + (b + [sep] + c), sep) == [a, b, c]
  {
    var t := b + [sep] + c;
    SplitNone(c, sep);
    SplitCons(b, c, sep);
    SplitCons(a, t, sep);
    assert [a] + ([b] + [c]) == [a, b, c];
  }

  /** Four separator-free pieces joined by the separator split back. */
  lemma SplitFour(a: string, b: string, c: string, d: string, sep: char)
    requires sep !in a && sep !in b && sep !in c && sep !in d
    ensures Split(a + [sep] + (b + [sep] + (c + [sep] + d)), sep) == [a, b, c, d]
  {
    var t := b + [sep] + (c + [sep] + d);
    SplitThree(b, c, d, sep);
    SplitCons(a, t, sep);
  }

  /** Lowering moves no character that is not a letter, so the first
      position of such a character is the same before and after. */
  lemma {:induction false} IndexOfCharLower(s: string, c: char)
    requires !('A' <= c <= 'Z') && !('a' <= c <= 'z')
    ensures IndexOfChar(Lower(s), c) == IndexOfChar(s, c)
  {
    if |s| > 0 {
      assert Lower(s)[1..] == Lower(s[1..]);
      IndexOfCharLower(s[1..], c);
    }
  }

  /** `s.replace(c, "")`: removes the first occurrence of `c` only. */
  function RemoveFirst(s: string, c: char): (r: string)
    ensures c in s ==> |r| == |s| - 1
    ensures c !in s ==> r == s
  {
    match IndexOfChar(s, c)
    case None => s
    case Some(k) => s[..k] + s[k + 1..]
  }

  /** When `k` is the first position of `c`, `replace` removes position `k`. */
  lemma RemoveFirstAt(s: string, c: char, k: nat)
    requires k < |s| && s[k] == c && c !in s[..k]
    ensures RemoveFirst(s, c) == s[..k] + s[k + 1..]
  {
  }

  predicate IsDigit(c: char)
  {
    '0' <= c <= '9'
  }

  /** The result of `parseInt` on an id: a number of at least 0 (`-0`
      included, since `-0 === 0`), a negative number `-n`, which no stored
      id equals, or `NaN`. */
  datatype IdArg = IdNum(n: nat) | Negative(n: nat) | NotANumber

  /** Strict equality of two `parseInt` results: `NaN` equals nothing. */
  predicate SameId(a: IdArg, b: IdArg)
  {
    a.IdNum? && a == b
  }

  /** The value of a string of decimal digits. */
  function DigitsValue(s: string): nat
    requires forall i :: 0 <= i < |s| ==> IsDigit(s[i])
  {
    if |s| == 0 then 0
    else
      assert IsDigit(s[|s| - 1]);
      10 * DigitsValue(s[..|s| - 1]) + (s[|s| - 1] as int - '0' as int)
  }

  /** How many decimal digits `s` starts with. */
  function LeadingDigits(s: string): (k: nat)
    ensures k <= |s|
    ensures forall i :: 0 <= i < k ==> IsDigit(s[i])
    ensures k < |s| ==> !IsDigit(s[k])
  {
    if |s| == 0 || !IsDigit(s[0]) then 0 else 1 + LeadingDigits(s[1..])
  }

  predicate IsHexDigit(c: char)
  {
    IsDigit(c) || 'a' <= c <= 'f' || 'A' <= c <= 'F'
  }

  function HexDigitValue(c: char): (v: nat)
    requires IsHexDigit(c)
    ensures v < 16
  {
    if IsDigit(c) then c as int - '0' as int
    else if 'a' <= c <= 'f' then c as int - 'a' as int + 10
    else c as int - 'A' as int + 10
  }

  /** The value of a string of hexadecimal digits. */
  function HexValue(s: string): nat
    requires forall i :: 0 <= i < |s| ==> IsHexDigit(s[i])
  {
    if |s| == 0 then 0
    else
      assert IsHexDigit(s[|s| - 1]);
      16 * HexValue(s[..|s| - 1]) + HexDigitValue(s[|s| - 1])
  }

  /** How many hexadecimal digits `s` starts with. */
  function LeadingHexDigits(s: string): (k: nat)
    ensures k <= |s|
    ensures forall i :: 0 <= i < k ==> IsHexDigit(s[i])
    ensures k < |s| ==> !IsHexDigit(s[k])
  {
    if |s| == 0 || !IsHexDigit(s[0]) then 0 else 1 + LeadingHexDigits(s[1..])
  }

  /** `s` starts with "0x" or "0X", which makes `parseInt` read base 16. */
  predicate HasHexPrefix(s: string)
  {
    |s| >= 2 && s[0] == '0' && (s[1] == 'x' || s[1] == 'X')
  }

  /** The magnitude `parseInt` reads once the sign is dealt with: the
      hexadecimal digits after a "0x" or "0X" prefix, otherwise the leading
      decimal digits; `None` (`NaN`) when there are none. */
  function ParseMagnitude(s: string): (r: Option<nat>)
    ensures r.Some? ==> |s| > 0 && IsDigit(s[0])
    ensures |s| > 0 && IsDigit(s[0]) && !HasHexPrefix(s) ==> r.Some?
  {
    if HasHexPrefix(s) then
      var h := s[2..];
      var k := LeadingHexDigits(h);
      if k == 0 then None else Some(HexValue(h[..k]))
    else
      var k := LeadingDigits(s);
      if k == 0 then None else Some(DigitsValue(s[..k]))
  }

  /** `parseInt(s)` for an id, without a radix: leading white space is
      skipped, then one '+' or '-' sign is read, then the magnitude. A
      string that starts with a decimal digit (and no "0x") is a number,
      and one without any decimal digit is `NaN`. */
  function ParseId(s: string): (r: IdArg)
    ensures |s| > 0 && IsDigit(s[0]) && !HasHexPrefix(s) ==> r.IdNum?
    ensures (forall i :: 0 <= i < |s| ==> !IsDigit(s[i])) ==> r.NotANumber?
  {
    var j := FirstNonSpace(s, 0);
    assert j == 0 ==> s[j..] == s;
    ParseSigned(s[j..])
  }

  /** `parseInt` once the white space is skipped: an optional sign, then
      the magnitude. */
  function ParseSigned(t: string): (r: IdArg)
    ensures |t| > 0 && IsDigit(t[0]) && !HasHexPrefix(t) ==> r.IdNum?
    ensures (forall i :: 0 <= i < |t| ==> !IsDigit(t[i])) ==> r.NotANumber?
  {
    var signed := |t| > 0 && (t[0] == '+' || t[0] == '-');
    var m := ParseMagnitude(if signed then t[1..] else t);
    if m.None? then NotANumber
    else if signed && t[0] == '-' && m.value > 0 then Negative(m.value)
    else IdNum(m.value)
  }

  /** The decimal rendering of `n`, as template strings produce it. */
  function NatToString(n: nat): (r: string)
    ensures |r| >= 1
    ensures forall i :: 0 <= i < |r| ==> IsDigit(r[i])
  {
    if n < 10 then [('0' as int + n) as char]
    else NatToString(n / 10) + [('0' as int + n % 10) as char]
  }

  /** `parseInt` reads back what the decimal rendering writes. */
  lemma ParseIdOfNatToString(n: nat)
    ensures ParseId(NatToString(n)) == IdNum(n)
  {
    var s := NatToString(n);
    MagnitudeOfNatToString(n);
    assert FirstNonSpace(s, 0) == 0;
    assert s[0..] == s;
  }

  /** A decimal rendering has no "0x" prefix and reads back as itself. */
  lemma MagnitudeOfNatToString(n: nat)
    ensures !HasHexPrefix(NatToString(n))
    ensures ParseMagnitude(NatToString(n)) == Some(n)
  {
    var s := NatToString(n);
    AllDigitsLeading(s);
    assert s[..|s|] == s;
    DigitsValueOfNatToString(n);
  }

  /** Leading white space makes no difference. */
  lemma ParseIdSkipsLeadingSpace(w: string, s: string)
    requires forall i :: 0 <= i < |w| ==> IsSpace(w[i])
    ensures ParseId(w + s) == ParseId(s)
  {
    var ws := w + s;
    var k := FirstNonSpace(ws, 0);
    var k' := FirstNonSpace(s, 0);
    FirstNonSpaceAfterSpace(w, s);
    assert ws[k..] == s[k'..];
  }

  lemma FirstNonSpaceAfterSpace(w: string, s: string)
    requires forall i :: 0 <= i < |w| ==> IsSpace(w[i])
    ensures FirstNonSpace(w + s, 0) == |w| + FirstNonSpace(s, 0)
  {
    var ws := w + s;
    var k' := FirstNonSpace(s, 0);
    assert forall i :: 0 <= i < |w| + k' ==> IsSpace(ws[i]) by {
      forall i | 0 <= i < |w| + k' ensures IsSpace(ws[i]) {
        if i < |w| {
          assert ws[i] == w[i];
        } else {
          assert ws[i] == s[i - |w|];
        }
      }
    }
    assert |w| + k' < |ws| ==> ws[|w| + k'] == s[k'];
    FirstNonSpaceUnique(ws, |w| + k');
  }

  /** The first non-space position is the one position with only white
      space before it and none at it. */
  lemma FirstNonSpaceUnique(x: string, m: nat)
    requires m <= |x| && forall i :: 0 <= i < m ==> IsSpace(x[i])
    requires m == |x| || !IsSpace(x[m])
    ensures FirstNonSpace(x, 0) == m
  {
  }

  /** A '+' sign changes nothing; a '-' sign negates, and `-0` is 0. */
  lemma ParseIdOfSigned(n: nat)
    ensures ParseId("+" + NatToString(n)) == IdNum(n)
    ensures ParseId("-" + NatToString(n)) == if n == 0 then IdNum(0) else Negative(n)
  {
    var s := NatToString(n);
    MagnitudeOfNatToString(n);
    assert FirstNonSpace("+" + s, 0) == 0 && ("+" + s)[1..] == s;
    assert FirstNonSpace("-" + s, 0) == 0 && ("-" + s)[1..] == s;
  }

  /** After "0x" or "0X" the digits are read in base 16, and a prefix with
      no hexadecimal digit after it is `NaN`. */
  lemma ParseIdOfHex(x: char, h: string)
    requires x == 'x' || x == 'X'
    requires |h| > 0 && forall i :: 0 <= i < |h| ==> IsHexDigit(h[i])
    ensures ParseId(['0', x] + h) == IdNum(HexValue(h))
    ensures ParseId(['0', x]) == NotANumber
  {
    var s := ['0', x] + h;
    assert FirstNonSpace(s, 0) == 0 && s[0..] == s;
    HexMagnitude(x, h);
    var e := ['0', x];
    assert FirstNonSpace(e, 0) == 0 && e[0..] == e;
    assert HasHexPrefix(e) && e[2..] == [];
  }

  lemma HexMagnitude(x: char, h: string)
    requires x == 'x' || x == 'X'
    requires |h| > 0 && forall i :: 0 <= i < |h| ==> IsHexDigit(h[i])
    ensures ParseMagnitude(['0', x] + h) == Some(HexValue(h))
  {
    var s := ['0', x] + h;
    assert HasHexPrefix(s) && s[2..] == h;
    AllHexDigitsLeading(h);
    assert h[..|h|] == h;
  }

  lemma {:induction false} AllHexDigitsLeading(s: string)
    requires forall i :: 0 <= i < |s| ==> IsHexDigit(s[i])
    ensures LeadingHexDigits(s) == |s|
  {
    if |s| > 0 {
      AllHexDigitsLeading(s[1..]);
    }
  }

  lemma {:induction false} AllDigitsLeading(s: string)
    requires forall i :: 0 <= i < |s| ==> IsDigit(s[i])
    ensures LeadingDigits(s) == |s|
  {
    if |s| > 0 {
      AllDigitsLeading(s[1..]);
    }
  }

  lemma {:induction false} DigitsValueOfNatToString(n: nat)
    ensures DigitsValue(NatToString(n)) == n
  {
    if n >= 10 {
      var s := NatToString(n);
      DigitsValueOfNatToString(n / 10);
      assert s[..|s| - 1] == NatToString(n / 10);
    }
  }
}
