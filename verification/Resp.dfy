/** The request parser of the server, and the RESP arrays of bulk strings it is meant to read. */
module Resp {
  import opened Bytes
  import opened Codec

  const CR: byte := 0x0d
  const LF: byte := 0x0a
  const STAR: byte := 0x2a
  const DOLLAR: byte := 0x24
  const CRLF: bytes := [0x0d, 0x0a]

  // ---------------------------------------------------------------- the library calls

  predicate IsSpace(c: byte) {
    c == 0x20 || 0x09 <= c <= 0x0d
  }

  predicate IsDigit(c: byte) {
    0x30 <= c <= 0x39
  }

  /** How many spaces the text starts with. */
  function Spaces(s: bytes): (n: nat)
    ensures n <= |s|
  {
    if s != [] && IsSpace(s[0]) then 1 + Spaces(s[1..]) else 0
  }

  /** How many digits the text starts with. */
  function Digits(s: bytes): (n: nat)
    ensures n <= |s| && AllDigits(s[..n])
  {
    if s != [] && IsDigit(s[0]) then 1 + Digits(s[1..]) else 0
  }

  predicate AllDigits(s: bytes) {
    forall i :: 0 <= i < |s| ==> IsDigit(s[i])
  }

  function Number(digits: bytes): nat
    requires AllDigits(digits)
  {
    if digits == [] then 0 else Number(digits[..|digits| - 1]) * 10 + (digits[|digits| - 1] as int - 0x30)
  }

  function Unsigned(s: bytes): Option<nat> {
    var n := Digits(s);
    if n == 0 then None else Some(Number(s[..n]))
  }

  function Signed(s: bytes): Option<int> {
    if s != [] && s[0] == 0x2d then
      match Unsigned(s[1..])
      case None => None
      case Some(v) => var value: int := v; Some(-value)
    else if s != [] && s[0] == 0x2b then
      match Unsigned(s[1..])
      case None => None
      case Some(v) => Some(v as int)
    else
      match Unsigned(s)
      case None => None
      case Some(v) => Some(v as int)
  }

  /** `std::stoi`; None where it throws. */
  function Stoi(s: bytes): Option<int> {
    match Signed(s[Spaces(s)..])
    case None => None
    case Some(v) => if -0x8000_0000 <= v <= 0x7fff_ffff then Some(v) else None
  }

  /** `find('\n', from) + 1`, which is 0 when there is none. */
  function AfterLf(s: bytes, from: nat): (r: nat)
    requires from <= |s|
    ensures r == 0 || from < r <= |s|
    decreases |s| - from
  {
    if from == |s| then 0 else if s[from] == LF then from + 1 else AfterLf(s, from + 1)
  }

  /** `substr(pos, len)`; a negative length is a huge one. */
  function Substr(s: bytes, pos: nat, len: int): bytes
    requires pos <= |s|
  {
    if len < 0 || pos + len > |s| then s[pos..] else s[pos..pos + len]
  }

  // ---------------------------------------------------------------- the parser

  /** The next n arguments from this position, as far as they can be read. */
  function ParseArgs(request: bytes, pos: nat, n: int): seq<bytes>
    requires pos <= |request|
    decreases n
  {
    if n <= 0 || pos == |request| || request[pos] != DOLLAR then []
    else
      match Stoi(request[pos + 1..])
      case None => []
      case Some(len) =>
        var data := AfterLf(request, pos);
        [Substr(request, data, len)] + ParseArgs(request, AfterLf(request, data), n - 1)
  }

  function Parse(request: bytes): seq<bytes> {
    if request == [] || request[0] != STAR then []
    else
      match Stoi(request[1..])
      case None => []
      case Some(n) => ParseArgs(request, AfterLf(request, 0), n)
  }

  method ParseResp(request: bytes) returns (args: seq<bytes>)
    ensures args == Parse(request)
  {
    hide Stoi, AfterLf, Substr;
    args := [];
    var pos: nat := 0;
    if request == [] || request[pos] != STAR {
      return;
    }
    var numElements := Stoi(request[pos + 1..]);
    if numElements == None {
      return;
    }
    pos := AfterLf(request, pos);
    var i := 0;
    while i < numElements.value
      invariant pos <= |request|
      invariant args + ParseArgs(request, pos, numElements.value - i) == Parse(request)
    {
      if pos >= |request| || request[pos] != DOLLAR {
        return;
      }
      var len := Stoi(request[pos + 1..]);
      if len == None {
        return;
      }
      var data := AfterLf(request, pos);
      ghost var rest := ParseArgs(request, AfterLf(request, data), numElements.value - i - 1);
      assert args + ([Substr(request, data, len.value)] + rest) == args + [Substr(request, data, len.value)] + rest;
      args := args + [Substr(request, data, len.value)];
      pos := AfterLf(request, data);
      i := i + 1;
    }
  }

  // ---------------------------------------------------------------- the encoding

  function Decimal(n: nat): (r: bytes)
    ensures r != [] && AllDigits(r)
  {
    if n < 10 then [0x30 + n] else Decimal(n / 10) + [0x30 + n % 10]
  }

  function Bulk(arg: bytes): bytes {
    [DOLLAR] + Decimal(|arg|) + CRLF + arg + CRLF
  }

  function Bulks(args: seq<bytes>): bytes {
    if args == [] then [] else Bulk(args[0]) + Bulks(args[1..])
  }

  function Encode(args: seq<bytes>): bytes {
    [STAR] + Decimal(|args|) + CRLF + Bulks(args)
  }

  // ---------------------------------------------------------------- numbers

  lemma {:induction false} DigitsOf(digits: bytes, rest: bytes)
    requires AllDigits(digits) && (rest == [] || !IsDigit(rest[0]))
    ensures Digits(digits + rest) == |digits|
  {
    if digits == [] {
      assert digits + rest == rest;
    } else {
      DigitsOf(digits[1..], rest);
      assert (digits + rest)[1..] == digits[1..] + rest;
    }
  }

  /** Reading a printed number gives it back. */
  lemma {:induction false} NumberOfDecimal(n: nat)
    ensures Number(Decimal(n)) == n
  {
    if n >= 10 {
      NumberOfDecimal(n / 10);
      assert Decimal(n)[..|Decimal(n)| - 1] == Decimal(n / 10);
    } else {
      assert Decimal(n)[..0] == [];
    }
  }

  lemma {:induction false} SpacesOf(spaces: bytes, rest: bytes)
    requires (forall i :: 0 <= i < |spaces| ==> IsSpace(spaces[i])) && (rest == [] || !IsSpace(rest[0]))
    ensures Spaces(spaces + rest) == |spaces|
  {
    if spaces == [] {
      assert spaces + rest == rest;
    } else {
      SpacesOf(spaces[1..], rest);
      assert (spaces + rest)[1..] == spaces[1..] + rest;
    }
  }

  /** A sign as it stands in front of a number. */
  predicate IsSign(sign: bytes) {
    sign == [] || sign == [0x2b] || sign == [0x2d]
  }

  /** Where the digits end. */
  predicate EndsNumber(rest: bytes) {
    rest == [] || !IsDigit(rest[0])
  }

  /** What follows cannot be taken for more spaces or a sign. */
  predicate EndsFront(rest: bytes) {
    rest == [] || (!IsSpace(rest[0]) && rest[0] != 0x2b && rest[0] != 0x2d)
  }

  lemma UnsignedText(digits: bytes, rest: bytes)
    requires AllDigits(digits) && EndsNumber(rest)
    ensures Unsigned(digits + rest) == if digits == [] then None else Some(Number(digits))
  {
    hide Number, Digits;
    DigitsOf(digits, rest);
    assert (digits + rest)[..|digits|] == digits;
  }

  lemma SignedText(sign: bytes, digits: bytes, rest: bytes)
    requires IsSign(sign) && AllDigits(digits) && EndsNumber(rest) && (sign == [] && digits == [] ==> EndsFront(rest))
    ensures Signed(sign + digits + rest)
         == if digits == [] then None else Some(if sign == [0x2d] then -(Number(digits) as int) else Number(digits))
  {
    hide Number, Unsigned;
    var s := sign + digits + rest;
    UnsignedText(digits, rest);
    if sign == [] {
      assert s == digits + rest;
      assert digits != [] ==> IsDigit(s[0]) by { assert digits != [] ==> s[0] == digits[0]; }
    } else {
      assert s[0] == sign[0] && s[1..] == digits + rest;
    }
  }

  /** `stoi` on every text: spaces, a sign, digits, and anything. It throws without digits and outside of
      32 bits, and otherwise gives the number. */
  lemma StoiText(spaces: bytes, sign: bytes, digits: bytes, rest: bytes)
    requires (forall i :: 0 <= i < |spaces| ==> IsSpace(spaces[i])) && IsSign(sign) && AllDigits(digits)
    requires EndsNumber(rest) && (sign == [] && digits == [] ==> EndsFront(rest))
    ensures var n := if digits == [] then 0 else if sign == [0x2d] then -(Number(digits) as int) else Number(digits);
            Stoi(spaces + (sign + digits + rest))
            == if digits == [] || n < -0x8000_0000 || n > 0x7fff_ffff then None else Some(n)
  {
    hide Number, Signed, Spaces;
    var text := sign + digits + rest;
    assert text != [] ==> !IsSpace(text[0]) by {
      if sign != [] { assert text[0] == sign[0]; } else if digits != [] { assert text[0] == digits[0]; } else { assert text == rest; }
    }
    SpacesOf(spaces, text);
    assert (spaces + text)[|spaces|..] == text;
    SignedText(sign, digits, rest);
  }

  lemma StoiOfDigits(digits: bytes, rest: bytes)
    requires digits != [] && AllDigits(digits) && EndsNumber(rest) && Number(digits) <= INT32_MAX
    ensures Stoi(digits + rest) == Some(Number(digits))
  {
    hide Number, Stoi;
    StoiText([], [], digits, rest);
    assert [] + ([] + digits + rest) == digits + rest;
  }

  /** The print and parse inverse, whatever follows the digits. */
  lemma StoiOfDecimal(n: nat, rest: bytes)
    requires n <= INT32_MAX && (rest == [] || !IsDigit(rest[0]))
    ensures Stoi(Decimal(n) + rest) == Some(n)
  {
    hide Decimal, Number, Stoi;
    NumberOfDecimal(n);
    StoiOfDigits(Decimal(n), rest);
  }

  // ---------------------------------------------------------------- lines

  lemma {:induction false} SkipLine(before: bytes, line: bytes, rest: bytes)
    requires LF !in line
    ensures AfterLf(before + line + [LF] + rest, |before|) == |before| + |line| + 1
    decreases |line|
  {
    var s := before + line + [LF] + rest;
    if line == [] {
      assert s[|before|] == LF;
    } else {
      assert s == (before + [line[0]]) + line[1..] + [LF] + rest;
      SkipLine(before + [line[0]], line[1..], rest);
    }
  }

  /** Where the data of the bulk string written here starts. */
  function DataAt(before: bytes, arg: bytes): nat {
    |before| + 1 + |Decimal(|arg|)| + 2
  }

  /** The header line of a bulk string, without its line feed. */
  function BulkLine(arg: bytes): (line: bytes)
    ensures LF !in line && line != [] && line[0] == DOLLAR
  {
    [DOLLAR] + Decimal(|arg|) + [CR]
  }

  lemma BulkLayout(before: bytes, arg: bytes, rest: bytes)
    ensures var request, data := before + Bulk(arg) + rest, DataAt(before, arg);
            && request == before + BulkLine(arg) + [LF] + (arg + CRLF + rest)
            && request == (before + BulkLine(arg) + [LF]) + (arg + [CR]) + [LF] + rest
            && |before + BulkLine(arg) + [LF]| == data
            && |before| + |Bulk(arg)| == data + |arg| + 2 <= |request|
  {
    hide Decimal;
    assert Bulk(arg) == BulkLine(arg) + [LF] + arg + CRLF;
  }

  lemma BulkHead(before: bytes, arg: bytes, rest: bytes)
    ensures var request := before + Bulk(arg) + rest;
            && |before| < |request| && request[|before|] == DOLLAR
            && request[|before| + 1..] == Decimal(|arg|) + (CRLF + (arg + CRLF + rest))
  {
    hide Decimal;
    NestRight(before, [DOLLAR], Decimal(|arg|), CRLF, arg, rest);
    Behind(before, DOLLAR, Decimal(|arg|) + (CRLF + (arg + CRLF + rest)));
  }

  lemma NestRight(a: bytes, b: bytes, c: bytes, d: bytes, e: bytes, f: bytes)
    ensures a + (b + c + d + e + d) + f == a + (b + (c + (d + (e + d + f))))
  {
    assert b + c + d + e + d == b + (c + (d + (e + d)));
  }

  lemma Behind(before: bytes, c: byte, after: bytes)
    ensures (before + ([c] + after))[|before|] == c && (before + ([c] + after))[|before| + 1..] == after
  {
  }

  lemma SubstrAt(head: bytes, arg: bytes, rest: bytes)
    ensures Substr(head + (arg + rest), |head|, |arg|) == arg
  {
  }

  /** The parser's steps over one bulk string written anywhere; the last one needs LF-free data. */
  lemma BulkSteps(before: bytes, arg: bytes, rest: bytes)
    requires |arg| <= INT32_MAX
    ensures var request, data := before + Bulk(arg) + rest, DataAt(before, arg);
            && |before| < data <= |request|
            && request[|before|] == DOLLAR
            && Stoi(request[|before| + 1..]) == Some(|arg|)
            && AfterLf(request, |before|) == data
            && Substr(request, data, |arg|) == arg
            && (LF !in arg ==> AfterLf(request, data) == |before| + |Bulk(arg)|)
  {
    hide Decimal, Stoi, AfterLf, Bulk, Substr, BulkLine;
    BulkHead(before, arg, rest);
    StoiOfDecimal(|arg|, CRLF + (arg + CRLF + rest));
    BulkLayout(before, arg, rest);
    SkipLine(before, BulkLine(arg), arg + CRLF + rest);
    SubstrAt(before + BulkLine(arg) + [LF], arg, CRLF + rest);
    assert arg + CRLF + rest == arg + (CRLF + rest);
    if LF !in arg { SkipLine(before + BulkLine(arg) + [LF], arg + [CR], rest); }
  }

  ghost predicate Short(args: seq<bytes>) {
    |args| <= INT32_MAX && forall i :: 0 <= i < |args| ==> |args[i]| <= INT32_MAX
  }

  /** Every argument but the last is free of line feeds. */
  ghost predicate OneLined(args: seq<bytes>) {
    forall i :: 0 <= i < |args| - 1 ==> LF !in args[i]
  }

  lemma BulksFront(before: bytes, args: seq<bytes>, rest: bytes)
    requires args != []
    ensures var request, arg, later := before + Bulks(args) + rest, args[0], args[1..];
            && request == before + Bulk(arg) + (Bulks(later) + rest)
            && request == (before + Bulk(arg)) + Bulks(later) + rest
  {
    hide Bulk;
  }

  lemma {:induction false} BulksParse(before: bytes, args: seq<bytes>, rest: bytes)
    requires Short(args) && OneLined(args)
    ensures ParseArgs(before + Bulks(args) + rest, |before|, |args|) == args
    decreases |args|
  {
    hide Bulk, Bulks, Stoi, AfterLf, Substr;
    if args != [] {
      var arg, later := args[0], args[1..];
      BulksFront(before, args, rest);
      BulkSteps(before, arg, Bulks(later) + rest);
      if later != [] { BulksParse(before + Bulk(arg), later, rest); }
      assert args == [arg] + later;
    }
  }

  /** The first line of a request, without its line feed. */
  function ArrayLine(n: nat): (line: bytes)
    ensures LF !in line && line != [] && line[0] == STAR
  {
    [STAR] + Decimal(n) + [CR]
  }

  /** The parser's steps over the first line. */
  lemma ArraySteps(args: seq<bytes>, rest: bytes)
    requires |args| <= INT32_MAX
    ensures var request, line := Encode(args) + rest, ArrayLine(|args|);
            && request == (line + [LF]) + Bulks(args) + rest
            && Stoi(request[1..]) == Some(|args|)
            && AfterLf(request, 0) == |line + [LF]|
  {
    hide Decimal, Stoi, AfterLf, Bulks;
    var request, line, tail := Encode(args) + rest, ArrayLine(|args|), Bulks(args) + rest;
    assert request[1..] == Decimal(|args|) + (CRLF + tail);
    StoiOfDecimal(|args|, CRLF + tail);
    assert request == [] + line + [LF] + tail;
    SkipLine([], line, tail);
  }

  /** The parser reads back every argument list whose arguments, but perhaps the last, have no line
      feed, whatever follows the request. */
  lemma RespRoundTrip(args: seq<bytes>, rest: bytes)
    requires Short(args) && OneLined(args)
    ensures Parse(Encode(args) + rest) == args
  {
    hide Encode, Stoi, AfterLf, ParseArgs, Bulks, ArrayLine;
    ArraySteps(args, rest);
    BulksParse(ArrayLine(|args|) + [LF], args, rest);
  }

  // ---------------------------------------------------------------- arguments with a line feed

  lemma {:induction false} SpacesStop(t: bytes, w: bytes)
    ensures Spaces(t + [DOLLAR] + w) == Spaces(t + [DOLLAR]) <= |t|
  {
    if t == [] {
      assert t + [DOLLAR] + w == [DOLLAR] + w;
    } else {
      SpacesStop(t[1..], w);
      assert (t + [DOLLAR] + w)[1..] == t[1..] + [DOLLAR] + w;
      assert (t + [DOLLAR])[1..] == t[1..] + [DOLLAR];
    }
  }

  lemma {:induction false} DigitsStop(t: bytes, w: bytes)
    ensures Digits(t + [DOLLAR] + w) == Digits(t + [DOLLAR]) <= |t|
  {
    if t == [] {
      assert t + [DOLLAR] + w == [DOLLAR] + w;
    } else {
      DigitsStop(t[1..], w);
      assert (t + [DOLLAR] + w)[1..] == t[1..] + [DOLLAR] + w;
      assert (t + [DOLLAR])[1..] == t[1..] + [DOLLAR];
    }
  }

  lemma UnsignedStops(t: bytes, w: bytes)
    ensures Unsigned(t + [DOLLAR] + w) == Unsigned(t + [DOLLAR])
  {
    hide Digits, Number;
    DigitsStop(t, w);
    var n := Digits(t + [DOLLAR]);
    assert (t + [DOLLAR] + w)[..n] == t[..n] == (t + [DOLLAR])[..n];
  }

  lemma SignedStops(t: bytes, w: bytes)
    ensures Signed(t + [DOLLAR] + w) == Signed(t + [DOLLAR])
  {
    hide Unsigned;
    UnsignedStops(t, w);
    if t != [] {
      UnsignedStops(t[1..], w);
      assert (t + [DOLLAR] + w)[1..] == t[1..] + [DOLLAR] + w;
      assert (t + [DOLLAR])[1..] == t[1..] + [DOLLAR];
    }
  }

  /** Nothing behind a dollar sign changes the number read. */
  lemma StoiStops(t: bytes, w: bytes)
    ensures Stoi(t + [DOLLAR] + w) == Stoi(t + [DOLLAR])
  {
    hide Signed, Spaces;
    SpacesStop(t, w);
    var n := Spaces(t + [DOLLAR]);
    SignedStops(t[n..], w);
    assert (t + [DOLLAR] + w)[n..] == t[n..] + [DOLLAR] + w;
    assert (t + [DOLLAR])[n..] == t[n..] + [DOLLAR];
  }

  lemma {:induction false} AfterLfBound(s: bytes, from: nat, at: nat)
    requires from <= at < |s| && s[at] == LF
    ensures from < AfterLf(s, from) <= at + 1
    decreases at - from
  {
    if s[from] != LF { AfterLfBound(s, from + 1, at); }
  }

  /** The place of the first line feed. */
  lemma {:induction false} FirstLf(x: bytes) returns (k: nat)
    requires LF in x
    ensures k < |x| && x[k] == LF && LF !in x[..k]
  {
    if x[0] == LF {
      k := 0;
    } else {
      k := FirstLf(x[1..]);
      k := k + 1;
      assert x[..k] == [x[0]] + x[1..][..k - 1];
    }
  }

  ghost predicate LfFree(args: seq<bytes>) {
    forall i :: 0 <= i < |args| ==> LF !in args[i]
  }

  lemma BulksOf(args: seq<bytes>, more: seq<bytes>)
    requires args != []
    ensures (args + more)[0] == args[0] && (args + more)[1..] == args[1..] + more
    ensures Bulks(args + more) == Bulk(args[0]) + Bulks(args[1..] + more)
    ensures Bulks(args) == Bulk(args[0]) + Bulks(args[1..])
  {
    hide Bulk;
  }

  /** Line-feed-free arguments are read one by one; the parser then stands before what follows. */
  lemma {:induction false} PrefixCounts(head: bytes, args: seq<bytes>, rest: bytes, n: nat)
    requires Short(args) && LfFree(args)
    ensures var request := head + Bulks(args) + rest;
            && |head + Bulks(args)| <= |request|
            && ParseArgs(request, |head|, |args| + n) == args + ParseArgs(request, |head + Bulks(args)|, n)
    decreases |args|
  {
    hide Bulk, Bulks, Stoi, AfterLf, Substr, ParseArgs;
    if args == [] {
      NoBulks();
      assert head + [] == head && [] + ParseArgs(head + rest, |head|, n) == ParseArgs(head + rest, |head|, n);
    } else {
      var request, arg, later := head + Bulks(args) + rest, args[0], args[1..];
      BulksFront(head, args, rest);
      PrefixCounts(head + Bulk(arg), later, rest, n);
      BulkSteps(head, arg, Bulks(later) + rest);
      ParseNext(request, |head|, |args| + n, arg);
      BulksOf(args, []);
      assert head + Bulk(arg) + Bulks(later) == head + Bulks(args);
      Shift(arg, later, ParseArgs(request, |head + Bulks(args)|, n));
      assert [arg] + later == args;
    }
  }

  lemma {:induction false} BulksConcat(args: seq<bytes>, more: seq<bytes>)
    ensures Bulks(args + more) == Bulks(args) + Bulks(more)
    decreases |args|
  {
    hide Bulk, Bulks;
    if args == [] {
      NoBulks();
      assert args + more == more;
    } else {
      BulksOf(args, more);
      BulksConcat(args[1..], more);
    }
  }

  lemma PrefixParses(head: bytes, args: seq<bytes>, more: seq<bytes>, rest: bytes)
    requires Short(args) && LfFree(args)
    ensures var request := head + Bulks(args + more) + rest;
            && request == (head + Bulks(args)) + Bulks(more) + rest
            && |head + Bulks(args)| <= |request|
            && ParseArgs(request, |head|, |args + more|)
               == args + ParseArgs(request, |head + Bulks(args)|, |more|)
  {
    hide Bulks, ParseArgs;
    BulksConcat(args, more);
    Regroup(head, Bulks(args), Bulks(more), rest);
    PrefixCounts(head, args, Bulks(more) + rest, |more|);
  }

  lemma NoBulks()
    ensures Bulks([]) == []
  {
  }

  lemma Shift(arg: bytes, later: seq<bytes>, rest: seq<bytes>)
    ensures [arg] + (later + rest) == ([arg] + later) + rest
  {
  }

  /** One turn of the loop. */
  lemma ParseNext(request: bytes, pos: nat, n: nat, arg: bytes)
    requires pos < |request| && request[pos] == DOLLAR && n > 0 && Stoi(request[pos + 1..]) == Some(|arg|)
    requires Substr(request, AfterLf(request, pos), |arg|) == arg
    ensures ParseArgs(request, pos, n)
         == [arg] + ParseArgs(request, AfterLf(request, AfterLf(request, pos)), n - 1)
  {
    hide Stoi, AfterLf, Substr;
  }

  /** After an argument with a line feed the parser goes on right behind that line feed. */
  lemma GoesOnInside(before: seq<bytes>, x: bytes, k: nat, y: bytes, rest: bytes) returns (p: nat)
    requires Short(before + [x, y]) && LfFree(before) && k < |x| && x[k] == LF && LF !in x[..k]
    ensures var request := Encode(before + [x, y]) + rest;
            && p <= |request| && request[p..] == x[k + 1..] + CRLF + (Bulk(y) + rest)
            && Parse(request) == (before + [x]) + ParseArgs(request, p, 1)
  {
    hide Stoi, AfterLf, Bulk, ArrayLine, Substr, Decimal, BulkLine, Encode, Bulks, ParseArgs;
    var args, request := before + [x, y], Encode(before + [x, y]) + rest;
    ArraySteps(args, rest);
    var line := ArrayLine(|args|) + [LF];
    assert forall i :: 0 <= i < |before| ==> before[i] == args[i];
    assert args[|before|] == x;
    PrefixParses(line, before, [x, y], rest);
    var head := line + Bulks(before);
    TwoBulks(x, y);
    BulksFront(head, [x, y], rest);
    p := InsideFirst(head, x, k, Bulk(y) + rest);
    assert before + ([x] + ParseArgs(request, p, 1)) == (before + [x]) + ParseArgs(request, p, 1);
  }

  lemma InsideFirst(head: bytes, x: bytes, k: nat, after: bytes) returns (p: nat)
    requires |x| <= INT32_MAX && k < |x| && x[k] == LF && LF !in x[..k]
    ensures var request := head + Bulk(x) + after;
            && |head| < |request| && p <= |request| && request[p..] == x[k + 1..] + CRLF + after
            && ParseArgs(request, |head|, 2) == [x] + ParseArgs(request, p, 1)
  {
    hide Stoi, AfterLf, Bulk, Substr, Decimal, BulkLine;
    var request := head + Bulk(x) + after;
    BulkSteps(head, x, after);
    BulkLayout(head, x, after);
    var before := head + BulkLine(x) + [LF];
    FirstLine(before, x, k, CRLF + after);
    assert x + CRLF + after == x + (CRLF + after);
    ParseNext(request, |head|, 2, x);
    p := |before| + k + 1;
    assert x[k + 1..] + (CRLF + after) == x[k + 1..] + CRLF + after;
  }

  lemma TwoBulks(x: bytes, y: bytes)
    ensures [x, y][1..] == [y] && Bulks([y]) == Bulk(y)
  {
    hide Bulk;
    assert [y][1..] == [];
    assert Bulk(y) + [] == Bulk(y);
  }

  lemma FirstLine(before: bytes, x: bytes, k: nat, after: bytes)
    requires k < |x| && x[k] == LF && LF !in x[..k]
    ensures AfterLf(before + (x + after), |before|) == |before| + k + 1
    ensures (before + (x + after))[|before| + k + 1..] == x[k + 1..] + after
  {
    hide AfterLf;
    var s := before + (x + after);
    assert x == x[..k] + [LF] + x[k + 1..];
    assert s == before + x[..k] + [LF] + (x[k + 1..] + after);
    SkipLine(before, x[..k], x[k + 1..] + after);
  }

  /** When what is left of an argument is read as the header of the next one, that one is read as
      empty or as non-empty whatever it is. */
  lemma ReadInside(request: bytes, p: nat, v: bytes, y: bytes, rest: bytes)
    requires p <= |request| && request[p..] == v + CRLF + (Bulk(y) + rest) && ParseArgs(request, p, 1) == [y]
    ensures v != [] && Stoi(v[1..] + CRLF + [DOLLAR]).Some?
    ensures y == [] <==> Stoi(v[1..] + CRLF + [DOLLAR]).value == 0
  {
    hide Stoi, AfterLf, Decimal;
    var left := v + CRLF + (Bulk(y) + rest);
    assert p < |request| && request[p] == left[0];
    var w := Decimal(|y|) + CRLF + y + CRLF + rest;
    assert Bulk(y) + rest == [DOLLAR] + w;
    assert request[p + 1..] == left[1..];
    assert left[1..] == v[1..] + CRLF + [DOLLAR] + w;
    StoiStops(v[1..] + CRLF, w);
    var at := p + |v| + 1;
    assert request[at] == left[|v| + 1] == LF;
    AfterLfBound(request, p, at);
    var data, len := AfterLf(request, p), Stoi(request[p + 1..]).value;
    assert ParseArgs(request, p, 1)[0] == Substr(request, data, len) == y;
    assert data < |request|;
  }

  /** Arguments that can follow x in a request: they are there, and all but the last have no line feed. */
  ghost predicate CanFollow(before: seq<bytes>, x: bytes, later: seq<bytes>) {
    later != [] && OneLined(later) && Short(before + [x] + later)
  }

  ghost predicate ReadBack(args: seq<bytes>, rest: bytes) {
    Parse(Encode(args) + rest) == args
  }

  /** At any place in a request, and whatever follows the request, an argument with others after it is
      read back along with all of them exactly if it has no line feed, although the format puts no such
      restriction on it. */
  lemma LineFeedBreaks(before: seq<bytes>, x: bytes, rest: bytes)
    requires LfFree(before) && Short(before + [x, []])
    ensures (forall later :: CanFollow(before, x, later) ==> ReadBack(before + [x] + later, rest)) <==> LF !in x
  {
    hide Short, OneLined, LfFree, ReadBack;
    if LF in x {
      NotBoth(before, x, rest);
    } else {
      forall later | CanFollow(before, x, later) ensures ReadBack(before + [x] + later, rest) {
        Joined(before, x, later);
        RespReadBack(before + [x] + later, rest);
      }
    }
  }

  lemma RespReadBack(args: seq<bytes>, rest: bytes)
    requires Short(args) && OneLined(args)
    ensures ReadBack(args, rest)
  {
    hide Parse, Encode;
    RespRoundTrip(args, rest);
  }

  lemma Joined(before: seq<bytes>, x: bytes, later: seq<bytes>)
    requires LfFree(before) && LF !in x && OneLined(later)
    ensures OneLined(before + [x] + later)
  {
  }

  /** An empty and a one-byte follower are not both read back. */
  lemma NotBoth(before: seq<bytes>, x: bytes, rest: bytes)
    requires LfFree(before) && Short(before + [x, []]) && LF in x
    ensures CanFollow(before, x, [[]]) && CanFollow(before, x, [[0x61]])
    ensures !ReadBack(before + [x] + [[]], rest) || !ReadBack(before + [x] + [[0x61]], rest)
  {
    hide Parse, Encode, Stoi, ParseArgs, Bulk, LfFree;
    var k := FirstLf(x);
    TwoAfter(before, x, []);
    TwoAfter(before, x, [0x61]);
    var p := GoesOnInside(before, x, k, [], rest);
    var q := GoesOnInside(before, x, k, [0x61], rest);
    if ReadBack(before + [x] + [[]], rest) && ReadBack(before + [x] + [[0x61]], rest) {
      var one, two := Encode(before + [x, []]) + rest, Encode(before + [x, [0x61]]) + rest;
      LastOf(before + [x], ParseArgs(one, p, 1), []);
      LastOf(before + [x], ParseArgs(two, q, 1), [0x61]);
      ReadInside(one, p, x[k + 1..], [], rest);
      ReadInside(two, q, x[k + 1..], [0x61], rest);
    }
  }

  lemma TwoAfter(before: seq<bytes>, x: bytes, y: bytes)
    requires Short(before + [x, []]) && |y| <= 1
    ensures before + [x] + [y] == before + [x, y] && Short(before + [x, y])
  {
    var args, others := before + [x, y], before + [x, []];
    assert before + [x] + [y] == args;
    forall i | 0 <= i < |args| ensures |args[i]| <= INT32_MAX {
      assert i <= |before| ==> args[i] == others[i];
    }
  }

  lemma LastOf(args: seq<bytes>, rest: seq<bytes>, y: bytes)
    ensures args + rest == args + [y] ==> rest == [y]
  {
    if args + rest == args + [y] { assert rest == (args + rest)[|args|..] == (args + [y])[|args|..] == [y]; }
  }

  /** A two-argument request the parser reads wrongly. */
  lemma LineFeedExample()
    ensures Parse(Encode([[LF], []])) == [[LF]]
  {
    hide Parse, Encode, AfterLf, Stoi, Bulk;
    assert [] + [[LF], []] == [[LF], []];
    var p := GoesOnInside([], [LF], 0, [], []);
    var request := Encode([[LF], []]);
    assert request + [] == request;
    assert request[p] == request[p..][0] == CR;
  }
}
