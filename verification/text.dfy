/** The handful of Swift and Foundation string operations the adapter code
    relies on, stated over `string` (a sequence of Unicode scalars):
    `replacingOccurrences(of:with:)` for a one-character target,
    `trimmingCharacters(in: .whitespacesAndNewlines)`,
    `dropFirst(k).prefix(n)` and `Int(_:radix: 16)`. */
module Text {
  import opened Wrappers

  // ---------------------------------------------------------------------------
  // Replacement

  /** Every occurrence of `target` replaced by `replacement`, left to right. */
  function ReplaceChar(s: string, target: char, replacement: string): (r: string)
    ensures target !in replacement ==> target !in r
    ensures forall c :: c in r ==> c in replacement || (c in s && c != target)
    ensures target !in s ==> r == s
    ensures |s| == 1 ==> r == if s[0] == target then replacement else s
    decreases |s|
  {
    if |s| == 0 then ""
    else (if s[0] == target then replacement else [s[0]]) + ReplaceChar(s[1..], target, replacement)
  }

  /** Replacing by one character keeps every position: a target becomes
      that character, anything else stays. */
  lemma {:induction false} ReplaceCharByChar(s: string, target: char, c: char)
    ensures var r := ReplaceChar(s, target, [c]);
      && |r| == |s|
      && forall i :: 0 <= i < |s| ==> r[i] == (if s[i] == target then c else s[i])
    decreases |s|
  {
    if |s| > 0 {
      ReplaceCharByChar(s[1..], target, c);
    }
  }

  /** Replacing by nothing removes every target and keeps every other
      character as often as it occurs. */
  lemma {:induction false} ReplaceCharRemoves(s: string, target: char)
    ensures multiset(ReplaceChar(s, target, "")) == multiset(s)[target := 0]
    decreases |s|
  {
    if |s| > 0 {
      assert s == [s[0]] + s[1..];
      ReplaceCharRemoves(s[1..], target);
    }
  }

  /** Replacing by another single character moves the target's count onto
      the replacement character. */
  lemma {:induction false} ReplaceCharCounts(s: string, target: char, c: char)
    requires c != target
    ensures var m := multiset(s);
      multiset(ReplaceChar(s, target, [c])) == m[target := 0][c := m[c] + m[target]]
    decreases |s|
  {
    if |s| > 0 {
      assert s == [s[0]] + s[1..];
      ReplaceCharCounts(s[1..], target, c);
    }
  }

  /** On one character: a target becomes the replacement, any other
      character stays. With `ReplaceCharAppend` this fixes the result on
      every string. */
  lemma ReplaceCharOne(c: char, target: char, replacement: string)
    ensures ReplaceChar([c], target, replacement) == if c == target then replacement else [c]
  {
    assert [c][1..] == [];
  }

  /** Replacing distributes over concatenation: a string may be cleaned chunk
      by chunk or all at once. */
  lemma {:induction false} ReplaceCharAppend(a: string, b: string, target: char, replacement: string)
    ensures ReplaceChar(a + b, target, replacement)
         == ReplaceChar(a, target, replacement) + ReplaceChar(b, target, replacement)
    decreases |a|
  {
    if |a| == 0 {
      assert a + b == b;
    } else {
      assert (a + b)[1..] == a[1..] + b;
      ReplaceCharAppend(a[1..], b, target, replacement);
    }
  }

  /** Foundation's `.whitespacesAndNewlines`: Unicode general category Z plus
      U+0009..U+000D and U+0085. */
  predicate IsWhitespaceOrNewline(c: char) {
    var n := c as int;
    || (0x09 <= n <= 0x0D)
    || n == 0x20 || n == 0x85 || n == 0xA0 || n == 0x1680
    || (0x2000 <= n <= 0x200A)
    || n == 0x2028 || n == 0x2029 || n == 0x202F || n == 0x205F || n == 0x3000
  }

  // ---------------------------------------------------------------------------
  // Trimming

  /** Neither end of `s` is whitespace. */
  predicate IsTrimmed(s: string) {
    |s| == 0 || (!IsWhitespaceOrNewline(s[0]) && !IsWhitespaceOrNewline(s[|s| - 1]))
  }

  predicate AllWhitespace(s: string) {
    forall i :: 0 <= i < |s| ==> IsWhitespaceOrNewline(s[i])
  }

  /** `s` is `lead` whitespace characters, then `r`, then only whitespace. */
  predicate SplitsAround(s: string, r: string, lead: nat) {
    && lead + |r| <= |s|
    && s[lead..lead + |r|] == r
    && AllWhitespace(s[..lead])
    && AllWhitespace(s[lead + |r|..])
  }

  function TrimStart(s: string): (r: string)
    ensures |r| <= |s| && r == s[|s| - |r|..]
    ensures |r| > 0 ==> !IsWhitespaceOrNewline(r[0])
    ensures AllWhitespace(s[..|s| - |r|])
    ensures forall c :: c in r ==> c in s
    decreases |s|
  {
    if |s| > 0 && IsWhitespaceOrNewline(s[0]) then TrimStart(s[1..]) else s
  }

  function TrimEnd(s: string): (r: string)
    ensures |r| <= |s| && r == s[..|r|]
    ensures |r| > 0 ==> !IsWhitespaceOrNewline(r[|r| - 1])
    ensures AllWhitespace(s[|r|..])
    ensures forall c :: c in r ==> c in s
    decreases |s|
  {
    if |s| > 0 && IsWhitespaceOrNewline(s[|s| - 1]) then TrimEnd(s[..|s| - 1]) else s
  }

  /** `trimmingCharacters(in: .whitespacesAndNewlines)`: the result is what is
      left of `s` once whitespace is dropped at both ends, and nothing else. */
  function Trim(s: string): (r: string)
    ensures IsTrimmed(r)
    ensures exists lead: nat :: SplitsAround(s, r, lead)
    ensures forall c :: c in r ==> c in s
    ensures IsTrimmed(s) ==> r == s
  {
    var t := TrimStart(s);
    SplitsAroundPrefixOfSuffix(s, t, TrimEnd(t));
    TrimEnd(t)
  }

  /** Whitespace before a suffix `t` of `s`, and after a prefix `r` of `t`,
      is whitespace around `r` in `s`. */
  lemma SplitsAroundPrefixOfSuffix(s: string, t: string, r: string)
    requires |t| <= |s| && t == s[|s| - |t|..] && AllWhitespace(s[..|s| - |t|])
    requires |r| <= |t| && r == t[..|r|] && AllWhitespace(t[|r|..])
    ensures SplitsAround(s, r, |s| - |t|)
  {
    assert s[|s| - |t| + |r|..] == t[|r|..];
  }

  /** Trimming twice is trimming once. */
  lemma TrimIdempotent(s: string)
    ensures Trim(Trim(s)) == Trim(s)
  {
  }

  // ---------------------------------------------------------------------------
  // Fixed-offset fields

  /** `s.dropFirst(k).prefix(n)`: the window of at most `n` characters starting
      at offset `k`, shorter (or empty) where `s` runs out. */
  function Field(s: string, k: nat, n: nat): (r: string)
    ensures |r| == (if |s| <= k then 0 else if |s| - k < n then |s| - k else n)
    ensures forall i :: 0 <= i < |r| ==> r[i] == s[k + i]
  {
    if |s| <= k then "" else if |s| - k <= n then s[k..] else s[k..k + n]
  }

  /** `replacingOccurrences(of: " ", with: "")`: every space goes, every
      other character stays, in order. */
  function StripSpaces(s: string): (r: string)
    ensures ' ' !in r
    ensures |r| <= |s|
    ensures ' ' !in s ==> r == s
  {
    StripSpacesShrinks(s);
    ReplaceChar(s, ' ', "")
  }

  /** Stripping removes every space and keeps every other character as
      often as it occurs. */
  lemma StripSpacesCounts(s: string)
    ensures multiset(StripSpaces(s)) == multiset(s)[' ' := 0]
  {
    ReplaceCharRemoves(s, ' ');
  }

  /** On one character: a space goes, anything else stays. */
  lemma StripSpacesOne(c: char)
    ensures StripSpaces([c]) == if c == ' ' then "" else [c]
  {
    ReplaceCharOne(c, ' ', "");
  }

  /** Stripping works piece by piece, so the order of the kept characters is
      the order in `a + b`. */
  lemma StripSpacesAppend(a: string, b: string)
    ensures StripSpaces(a + b) == StripSpaces(a) + StripSpaces(b)
  {
    ReplaceCharAppend(a, b, ' ', "");
  }

  lemma {:induction false} StripSpacesShrinks(s: string)
    ensures |ReplaceChar(s, ' ', "")| <= |s|
    decreases |s|
  {
    if |s| > 0 {
      StripSpacesShrinks(s[1..]);
    }
  }

  // ---------------------------------------------------------------------------
  // Int(_:radix: 16)

  predicate IsHexDigit(c: char) {
    ('0' <= c <= '9') || ('a' <= c <= 'f') || ('A' <= c <= 'F')
  }

  predicate AllHex(s: string) {
    forall i :: 0 <= i < |s| ==> IsHexDigit(s[i])
  }

  function HexDigitValue(c: char): (v: nat)
    requires IsHexDigit(c)
    ensures v < 16
  {
    if '0' <= c <= '9' then (c as int) - ('0' as int)
    else if 'a' <= c <= 'f' then (c as int) - ('a' as int) + 10
    else (c as int) - ('A' as int) + 10
  }

  function Pow16(n: nat): (p: nat)
    ensures p >= 1
  {
    if n == 0 then 1 else 16 * Pow16(n - 1)
  }

  /** The value of a run of hex digits, most significant first. */
  function DigitsValue(s: string): (v: nat)
    requires AllHex(s)
    ensures v < Pow16(|s|)
  {
    if |s| == 0 then 0
    else DigitsValue(s[..|s| - 1]) * 16 + HexDigitValue(s[|s| - 1])
  }

  /** Swift's `Int(text, radix: 16)`: an optional `+` or `-` sign followed by
      at least one digit in either case; anything else is `nil`. */
  function ParseHexInt(s: string): (r: Option<int>)
    ensures r.Some? ==> |s| > 0
    ensures r.Some? && |s| <= 2 ==> -15 <= r.value <= 255
    ensures r.Some? && s[0] != '-' ==> r.value >= 0
    ensures |s| > 0 && AllHex(s) ==> r == Some(DigitsValue(s))
    ensures r.Some? ==> (IsHexDigit(s[0]) || ((s[0] == '+' || s[0] == '-') && |s| > 1)) && AllHex(s[1..])
    ensures |s| > 1 && (s[0] == '-' || s[0] == '+') && AllHex(s[1..]) ==>
      r == Some(if s[0] == '-' then -(DigitsValue(s[1..]) as int) else DigitsValue(s[1..]))
  {
    if |s| == 0 then None
    else
      var digits := if s[0] == '-' || s[0] == '+' then s[1..] else s;
      if |digits| == 0 || !AllHex(digits) then None
      else
        var magnitude: int := DigitsValue(digits);
        Some(if s[0] == '-' then -magnitude else magnitude)
  }

  /** Two hex digits read as one byte, high digit first. */
  lemma TwoDigitsValue(p: string)
    requires |p| == 2 && AllHex(p)
    ensures ParseHexInt(p) == Some(16 * HexDigitValue(p[0]) + HexDigitValue(p[1]))
  {
    assert p[..1][..0] == [];
    assert DigitsValue(p[..1]) == HexDigitValue(p[0]);
    assert DigitsValue(p) == 16 * DigitsValue(p[..1]) + HexDigitValue(p[1]);
  }

  /** The upper-case hex digit the adapter prints for `d`. */
  function HexChar(d: nat): (c: char)
    requires d < 16
    ensures IsHexDigit(c) && HexDigitValue(c) == d
  {
    if d < 10 then ('0' as int + d) as char else ('A' as int + d - 10) as char
  }

  /** A byte as the two hex digits an ELM327 prints for it. */
  function Hex2(b: nat): (s: string)
    requires b < 256
    ensures |s| == 2 && AllHex(s)
  {
    [HexChar(b / 16), HexChar(b % 16)]
  }

  /** Printing a byte in hex and parsing it back gives the byte. */
  lemma ParseHex2(b: nat)
    requires b < 256
    ensures ParseHexInt(Hex2(b)) == Some(b)
  {
    var s := Hex2(b);
    assert s[..1][..0] == [];
    assert DigitsValue(s[..1]) == HexDigitValue(s[0]);
  }
}
