/** Python's `int(text, 16)` on a byte string, which two parsers of the daemon rely on. */
module PyInt {
  import opened Bytes
  import opened Options

  predicate IsSpace(b: byte) {
    b == 32 || 9 <= b <= 13
  }

  function SkipSpace(s: seq<byte>): seq<byte> {
    if s != [] && IsSpace(s[0]) then SkipSpace(s[1..]) else s
  }

  predicate IsHexDigit(b: byte) {
    48 <= b <= 57 || 65 <= b <= 70 || 97 <= b <= 102
  }

  function HexDigit(b: byte): (d: nat)
    requires IsHexDigit(b)
    ensures d < 16
  {
    if b <= 57 then b - 48 else if b <= 70 then b - 55 else b - 87
  }

  /** The digit of value `d` as text, in either case. */
  function UpperDigit(d: nat): byte
    requires d < 16
  {
    "0123456789ABCDEF"[d] as int
  }

  function LowerDigit(d: nat): byte
    requires d < 16
  {
    "0123456789abcdef"[d] as int
  }

  /** A digit reads the same in both cases, and nothing else is one. */
  lemma DigitReadBack(d: nat)
    requires d < 16
    ensures IsHexDigit(UpperDigit(d)) && HexDigit(UpperDigit(d)) == d
    ensures IsHexDigit(LowerDigit(d)) && HexDigit(LowerDigit(d)) == d
  {
  }

  /** And nothing else is one. */
  lemma OnlyDigits(b: byte)
    requires IsHexDigit(b)
    ensures b in {UpperDigit(HexDigit(b)), LowerDigit(HexDigit(b))}
  {
  }

  const UNDERSCORE: byte := 95

  /** The length of the leading run of digits and underscores. */
  function DigitRun(s: seq<byte>): (n: nat)
    ensures n <= |s| && forall i :: 0 <= i < n ==> IsHexDigit(s[i]) || s[i] == UNDERSCORE
  {
    if s != [] && (IsHexDigit(s[0]) || s[0] == UNDERSCORE) then 1 + DigitRun(s[1..]) else 0
  }

  /** An underscore may only stand between two digits. */
  predicate Grouped(run: seq<byte>) {
    run != [] && run[0] != UNDERSCORE && run[|run| - 1] != UNDERSCORE
    && forall i :: 0 <= i < |run| - 1 ==> run[i] != UNDERSCORE || run[i + 1] != UNDERSCORE
  }

  function HexValue(run: seq<byte>): nat
    requires forall i :: 0 <= i < |run| ==> IsHexDigit(run[i]) || run[i] == UNDERSCORE
  {
    if run == [] then 0
    else
      var last, init := run[|run| - 1], run[..|run| - 1];
      if last == UNDERSCORE then HexValue(init) else 16 * HexValue(init) + HexDigit(last)
  }

  /** An unsigned literal, its optional 0x prefix gone, with nothing but white space after it. */
  function ParseDigits(s: seq<byte>): Option<nat> {
    var n := DigitRun(s);
    if Grouped(s[..n]) && SkipSpace(s[n..]) == [] then Some(HexValue(s[..n])) else None
  }

  function SkipPrefix(s: seq<byte>): seq<byte> {
    if |s| >= 2 && s[0] == 48 && (s[1] == 120 || s[1] == 88) then
      if |s| >= 3 && s[2] == UNDERSCORE then s[3..] else s[2..]
    else s
  }

  function Negative(r: Option<nat>): Option<int> {
    match r
    case None => None
    case Some(v) => Some(-(v as int))
  }

  function Signed(s: seq<byte>): Option<int> {
    if s != [] && s[0] == 45 then Negative(ParseDigits(SkipPrefix(s[1..])))
    else
      match ParseDigits(SkipPrefix(if s != [] && s[0] == 43 then s[1..] else s))
      case None => None
      case Some(v) => Some(v)
  }

  /** `int(text, 16)`; `None` is its ValueError. */
  function Int16(text: seq<byte>): Option<int> {
    Signed(SkipSpace(text))
  }

  // ------------------------------------------------------------------ what a literal is

  /** What a run is before its last digit, and the underscore before that. */
  function Before(s: seq<byte>): seq<byte>
    requires |s| > 1
  {
    if s[|s| - 2] == UNDERSCORE then s[..|s| - 2] else s[..|s| - 1]
  }

  /** A number in hexadecimal digits of either case, leading zeros or not, any two digits perhaps set apart
      by one underscore. */
  predicate Spells(s: seq<byte>, n: nat) {
    s != [] && s[|s| - 1] in {UpperDigit(n % 16), LowerDigit(n % 16)}
    && (|s| == 1 ==> n < 16)
    && (|s| > 1 ==> Spells(Before(s), n / 16))
  }

  predicate AllSpace(s: seq<byte>) {
    forall i :: 0 <= i < |s| ==> s[i] in {9, 10, 11, 12, 13, 32}
  }

  /** `0x`, perhaps with an underscore after it, or nothing. */
  predicate IsPrefix(p: seq<byte>) {
    p in {[], [48, 120], [48, 88], [48, 120, 95], [48, 88, 95]}
  }

  /** White space, a sign, `0x`, the digits, white space: all but the digits optional. */
  predicate Literal(left: seq<byte>, sign: seq<byte>, prefix: seq<byte>, digits: seq<byte>, right: seq<byte>, v: int) {
    AllSpace(left) && AllSpace(right)
    && sign in {[], [43], [45]} && IsPrefix(prefix)
    && if sign == [45] then v <= 0 && Spells(digits, -v) else v >= 0 && Spells(digits, v)
  }

  predicate InRun(s: seq<byte>) {
    forall i :: 0 <= i < |s| ==> IsHexDigit(s[i]) || s[i] == UNDERSCORE
  }

  lemma LastDigit(b: byte, n: nat)
    ensures b in {UpperDigit(n % 16), LowerDigit(n % 16)} <==> IsHexDigit(b) && HexDigit(b) == n % 16
  {
    DigitReadBack(n % 16);
    if IsHexDigit(b) {
      OnlyDigits(b);
    }
  }

  lemma GroupedBefore(s: seq<byte>)
    requires |s| > 1 && s[|s| - 1] != UNDERSCORE
    ensures Grouped(s) <==> Grouped(Before(s))
  {
    var b := Before(s);
    if Grouped(b) {
      forall i | 0 <= i < |s| - 1
        ensures s[i] != UNDERSCORE || s[i + 1] != UNDERSCORE
      {
        assert i < |b| ==> b[i] == s[i];
        assert i + 1 < |b| ==> b[i + 1] == s[i + 1];
      }
    }
  }

  lemma RunBefore(s: seq<byte>)
    requires |s| > 1 && IsHexDigit(s[|s| - 1])
    ensures InRun(s) <==> InRun(Before(s))
  {
    hide IsHexDigit;
    var b := Before(s);
    if InRun(b) {
      assert forall i :: 0 <= i < |b| ==> s[i] == b[i];
    }
  }

  lemma ValueBefore(s: seq<byte>)
    requires |s| > 1 && IsHexDigit(s[|s| - 1]) && InRun(s)
    ensures InRun(Before(s)) && HexValue(s) == 16 * HexValue(Before(s)) + HexDigit(s[|s| - 1])
  {
    RunBefore(s);
    var init := s[..|s| - 1];
    assert s[|s| - 2] == UNDERSCORE ==> init[..|init| - 1] == s[..|s| - 2];
    hide HexDigit;
  }

  lemma LastIsDigit(s: seq<byte>)
    ensures InRun(s) && Grouped(s) ==> s != [] && IsHexDigit(s[|s| - 1])
  {
  }

  lemma {:induction false} SpellsExactly(s: seq<byte>, n: nat)
    ensures Spells(s, n) <==> InRun(s) && Grouped(s) && HexValue(s) == n
    decreases |s|
  {
    if s != [] {
      LastDigit(s[|s| - 1], n);
      if |s| == 1 {
        assert HexValue([]) == 0 && s[..0] == [];
      } else {
        SpellsExactly(Before(s), n / 16);
        hide Grouped, HexDigit, UpperDigit, LowerDigit;
        if IsHexDigit(s[|s| - 1]) {
          GroupedBefore(s);
          RunBefore(s);
          if InRun(s) {
            ValueBefore(s);
          }
        } else {
          LastIsDigit(s);
        }
        hide HexValue, InRun, IsHexDigit;
      }
    }
  }

  lemma {:induction false} SpaceSkipped(left: seq<byte>, rest: seq<byte>)
    requires AllSpace(left) && (rest == [] || !IsSpace(rest[0]))
    ensures SkipSpace(left + rest) == rest
    decreases |left|
  {
    if left == [] {
      assert left + rest == rest;
    } else {
      assert (left + rest)[1..] == left[1..] + rest;
      SpaceSkipped(left[1..], rest);
    }
  }

  lemma {:induction false} SpaceSplit(s: seq<byte>)
    ensures var rest := SkipSpace(s);
      |rest| <= |s| && s == s[..|s| - |rest|] + rest && AllSpace(s[..|s| - |rest|])
      && (rest == [] || !IsSpace(rest[0]))
    decreases |s|
  {
    if s != [] && IsSpace(s[0]) {
      SpaceSplit(s[1..]);
      var n := |s| - |SkipSpace(s)|;
      assert s[..n] == [s[0]] + s[1..][..n - 1];
    }
  }

  lemma {:induction false} RunEnds(digits: seq<byte>, right: seq<byte>)
    requires InRun(digits) && AllSpace(right)
    ensures DigitRun(digits + right) == |digits|
    decreases |digits|
  {
    if digits == [] {
      assert digits + right == right;
    } else {
      assert (digits + right)[1..] == digits[1..] + right;
      RunEnds(digits[1..], right);
    }
  }

  lemma DigitsRead(digits: seq<byte>, n: nat, right: seq<byte>)
    requires Spells(digits, n) && AllSpace(right)
    ensures ParseDigits(digits + right) == Some(n) && IsHexDigit(digits[0])
  {
    SpellsExactly(digits, n);
    RunEnds(digits, right);
    assert (digits + right)[..|digits|] == digits && (digits + right)[|digits|..] == right;
    assert right + [] == right;
    SpaceSkipped(right, []);
  }

  lemma DigitsFound(s: seq<byte>, n: nat)
    requires ParseDigits(s) == Some(n)
    ensures var k := DigitRun(s); Spells(s[..k], n) && AllSpace(s[k..]) && s == s[..k] + s[k..]
  {
    var k := DigitRun(s);
    SpellsExactly(s[..k], n);
    SpaceSplit(s[k..]);
    hide SkipSpace, DigitRun, HexValue, Grouped;
    assert s[k..][..|s[k..]|] == s[k..];
  }

  lemma PrefixSkipped(prefix: seq<byte>, rest: seq<byte>)
    requires IsPrefix(prefix) && rest != [] && IsHexDigit(rest[0])
    requires |rest| >= 2 ==> rest[1] != 120 && rest[1] != 88
    ensures SkipPrefix(prefix + rest) == rest
  {
    var s := prefix + rest;
    assert s[|prefix|..] == rest && s[|prefix|] == rest[0];
    assert prefix == [] ==> s == rest;
    assert |prefix| == 3 ==> s[0] == prefix[0] && s[1] == prefix[1] && s[2] == prefix[2];
    assert |prefix| == 2 ==> s[0] == prefix[0] && s[1] == prefix[1];
  }

  lemma PrefixSplit(s: seq<byte>)
    ensures var rest := SkipPrefix(s);
      |rest| <= |s| && s == s[..|s| - |rest|] + rest && IsPrefix(s[..|s| - |rest|])
  {
    var n := |s| - |SkipPrefix(s)|;
    assert n == 2 ==> s[..2] == [s[0], s[1]];
    assert n == 3 ==> s[..3] == [s[0], s[1], s[2]];
  }

  lemma SecondIsNoX(digits: seq<byte>, right: seq<byte>)
    requires InRun(digits) && digits != [] && AllSpace(right)
    ensures |digits + right| >= 2 ==> (digits + right)[1] != 120 && (digits + right)[1] != 88
  {
  }

  lemma UnsignedRead(prefix: seq<byte>, digits: seq<byte>, right: seq<byte>, n: nat)
    requires IsPrefix(prefix) && Spells(digits, n) && AllSpace(right)
    ensures ParseDigits(SkipPrefix(prefix + digits + right)) == Some(n)
  {
    SpellsExactly(digits, n);
    DigitsRead(digits, n, right);
    SecondIsNoX(digits, right);
    hide ParseDigits, SkipPrefix, Spells, InRun, Grouped, IsHexDigit, AllSpace;
    PrefixSkipped(prefix, digits + right);
    Associate(prefix, digits, right);
  }

  lemma SignedRead(sign: seq<byte>, body: seq<byte>, n: nat)
    requires sign in {[], [43], [45]} && body != [] && body[0] != 45 && body[0] != 43 && !IsSpace(body[0])
    requires ParseDigits(SkipPrefix(body)) == Some(n)
    ensures Signed(sign + body) == Some(if sign == [45] then -(n as int) else n) && !IsSpace((sign + body)[0])
  {
    hide ParseDigits, SkipPrefix;
    var s := sign + body;
    if sign == [] {
      assert s == body;
    } else {
      assert s[0] == sign[0] && s[1..] == body;
    }
  }

  lemma BodyBegins(prefix: seq<byte>, digits: seq<byte>, right: seq<byte>, n: nat)
    requires IsPrefix(prefix) && Spells(digits, n)
    ensures var body := prefix + digits + right;
      body != [] && body[0] != 45 && body[0] != 43 && !IsSpace(body[0])
  {
    SpellsExactly(digits, n);
    assert IsHexDigit(digits[0]);
    assert (prefix + digits + right)[0] == if prefix == [] then digits[0] else prefix[0];
    hide Spells, Grouped, InRun;
  }

  /** `int(text, 16)` reads exactly the literals, each as what it spells. */
  lemma LiteralRead(left: seq<byte>, sign: seq<byte>, prefix: seq<byte>, digits: seq<byte>, right: seq<byte>, v: int)
    requires Literal(left, sign, prefix, digits, right, v)
    ensures Int16(left + (sign + (prefix + digits + right))) == Some(v)
  {
    var n := if sign == [45] then -v else v;
    hide SkipSpace, ParseDigits, SkipPrefix, Spells, Signed, IsPrefix, AllSpace, IsSpace;
    var body := prefix + digits + right;
    UnsignedRead(prefix, digits, right, n);
    BodyBegins(prefix, digits, right, n);
    SignedRead(sign, body, n);
    SpaceSkipped(left, sign + body);
  }

  lemma SignFound(s: seq<byte>, v: int)
    requires Signed(s) == Some(v)
    ensures var sign := if s != [] && (s[0] == 45 || s[0] == 43) then [s[0]] else [];
      s == sign + s[|sign|..] && sign in {[], [43], [45]}
      && if sign == [45] then v <= 0 && ParseDigits(SkipPrefix(s[1..])) == Some(-v)
         else v >= 0 && ParseDigits(SkipPrefix(s[|sign|..])) == Some(v)
  {
    hide ParseDigits, SkipPrefix;
    assert s[0..] == s;
  }

  lemma FoundParts(left: seq<byte>, sign: seq<byte>, prefix: seq<byte>, digits: seq<byte>, right: seq<byte>, v: int)
    requires Literal(left, sign, prefix, digits, right, v)
    ensures exists l, s, p, d, r ::
      Literal(l, s, p, d, r, v) && left + (sign + (prefix + (digits + right))) == l + (s + (p + d + r))
  {
    Associate(prefix, digits, right);
  }

  /** The parts of a text that is read. */
  lemma LiteralFound(text: seq<byte>, v: int)
    requires Int16(text) == Some(v)
    ensures exists left, sign, prefix, digits, right ::
      Literal(left, sign, prefix, digits, right, v) && text == left + (sign + (prefix + digits + right))
  {
    var s := SkipSpace(text);
    hide SkipPrefix, ParseDigits, SkipSpace, Spells, Signed, DigitRun, IsPrefix, AllSpace, IsSpace;
    SpaceSplit(text);
    SignFound(s, v);
    var left := text[..|text| - |s|];
    var sign := if s != [] && (s[0] == 45 || s[0] == 43) then [s[0]] else [];
    var body := s[|sign|..];
    var rest := SkipPrefix(body);
    PrefixSplit(body);
    DigitsFound(rest, if sign == [45] then -v else v);
    var prefix, k := body[..|body| - |rest|], DigitRun(rest);
    FoundParts(left, sign, prefix, rest[..k], rest[k..], v);
  }
}
