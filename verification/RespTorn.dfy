/** Requests the parser gets only part of, or that are not what they should be. */
module RespTorn {
  import opened Bytes
  import opened Codec
  import opened Resp

  /** The first line of a request for n arguments. */
  function Opening(n: nat): bytes {
    ArrayLine(n) + [LF]
  }

  lemma {:induction false} NoLfAfter(s: bytes, from: nat)
    requires from <= |s| && LF !in s[from..]
    ensures AfterLf(s, from) == 0
    decreases |s| - from
  {
    if from < |s| {
      assert s[from] == s[from..][0] && s[from + 1..] == s[from..][1..];
      NoLfAfter(s, from + 1);
    }
  }

  /** The parser's steps over the first line, whatever follows. */
  lemma OpeningSteps(n: nat, rest: bytes)
    requires n <= INT32_MAX
    ensures var request := Opening(n) + rest;
            && request[0] == STAR && Stoi(request[1..]) == Some(n) && AfterLf(request, 0) == |Opening(n)|
            && Parse(request) == ParseArgs(request, |Opening(n)|, n)
  {
    hide Decimal, Stoi, AfterLf, ParseArgs;
    var request := Opening(n) + rest;
    assert request[1..] == Decimal(n) + (CRLF + rest);
    StoiOfDecimal(n, CRLF + rest);
    assert request == [] + ArrayLine(n) + [LF] + rest;
    SkipLine([], ArrayLine(n), rest);
  }

  /** Announced arguments that are there are read; what is read next depends on what follows. */
  lemma Opened(n: nat, args: seq<bytes>, rest: bytes)
    requires Short(args) && LfFree(args) && |args| <= n <= INT32_MAX
    ensures var request, pos := Opening(n) + Bulks(args) + rest, |Opening(n) + Bulks(args)|;
            && pos <= |request|
            && Parse(request) == args + ParseArgs(request, pos, n - |args|)
  {
    hide Opening, Stoi, AfterLf, ParseArgs, Parse, Bulks;
    assert Opening(n) + Bulks(args) + rest == Opening(n) + (Bulks(args) + rest);
    OpeningSteps(n, Bulks(args) + rest);
    PrefixCounts(Opening(n), args, rest, n - |args|);
  }

  // ---------------------------------------------------------------- not what was announced

  /** A request that does not start with a star has no arguments. */
  lemma NotAnArray(request: bytes)
    requires request == [] || request[0] != STAR
    ensures Parse(request) == []
  {
  }

  /** Where something else stands than a bulk string, the arguments before it are returned. */
  lemma StopsAtOther(n: nat, args: seq<bytes>, rest: bytes)
    requires Short(args) && LfFree(args) && |args| <= n <= INT32_MAX && (rest == [] || rest[0] != DOLLAR)
    ensures Parse(Opening(n) + Bulks(args) + rest) == args
  {
    hide Opening, Stoi, AfterLf, Parse, Bulks, Substr;
    Opened(n, args, rest);
    var request := Opening(n) + Bulks(args) + rest;
    assert rest != [] ==> request[|Opening(n) + Bulks(args)|] == rest[0];
  }

  /** So are they where the length of a bulk string cannot be read. */
  lemma StopsAtBadLength(n: nat, args: seq<bytes>, rest: bytes)
    requires Short(args) && LfFree(args) && |args| <= n <= INT32_MAX && Stoi(rest) == None
    ensures Parse(Opening(n) + Bulks(args) + ([DOLLAR] + rest)) == args
  {
    hide Opening, Stoi, AfterLf, Parse, Bulks, Substr;
    Opened(n, args, [DOLLAR] + rest);
    Behind(Opening(n) + Bulks(args), DOLLAR, rest);
  }

  /** The line of a bulk string of negative length, without its line feed. */
  function NullLine(len: int): (line: bytes)
    requires len < 0
    ensures LF !in line
  {
    [DOLLAR, 0x2d] + Decimal(-len) + [CR]
  }

  lemma NullReads(head: bytes, len: int, data: bytes)
    requires -0x8000_0000 <= len < 0
    ensures var request := head + NullLine(len) + [LF] + data;
            request[|head|] == DOLLAR && Stoi(request[|head| + 1..]) == Some(len)
  {
    hide Decimal, Stoi, Number;
    var digits := Decimal(-len);
    var request, text := head + NullLine(len) + [LF] + data, [0x2d] + digits + (CRLF + data);
    assert request == head + ([DOLLAR] + text);
    Behind(head, DOLLAR, text);
    StoiText([], [0x2d], digits, CRLF + data);
    assert [] + text == text;
    NumberOfDecimal(-len);
  }

  lemma NullStep(head: bytes, len: int, data: bytes)
    requires -0x8000_0000 <= len < 0
    ensures var request := head + NullLine(len) + [LF] + data;
            ParseArgs(request, |head|, 1) == [data]
  {
    hide Stoi, AfterLf, NullLine, ParseArgs;
    var request, at := head + NullLine(len) + [LF] + data, |head| + |NullLine(len)| + 1;
    NullReads(head, len, data);
    SkipLine(head, NullLine(len), data);
    ParseOne(request, |head|, 1, len);
    assert request[at..] == data;
    NoMore(request, AfterLf(request, at));
  }

  /** A negative length, the format's null, makes the next argument all that follows its line. */
  lemma NullTakesAll(args: seq<bytes>, len: int, data: bytes)
    requires Short(args) && LfFree(args) && |args| < INT32_MAX && -0x8000_0000 <= len < 0
    ensures Parse(Opening(|args| + 1) + Bulks(args) + (NullLine(len) + [LF] + data)) == args + [data]
  {
    hide Opening, Parse, Bulks, NullLine, ParseArgs;
    var head, rest := Opening(|args| + 1) + Bulks(args), NullLine(len) + [LF] + data;
    Opened(|args| + 1, args, rest);
    assert head + rest == head + NullLine(len) + [LF] + data;
    NullStep(head, len, data);
  }

  lemma NoMore(request: bytes, pos: nat)
    requires pos <= |request|
    ensures ParseArgs(request, pos, 0) == []
  {
  }

  // ---------------------------------------------------------------- a request that is cut

  /** Where argument k's bulk string starts. */
  function BulkAt(args: seq<bytes>, k: nat): nat
    requires k <= |args|
  {
    |Opening(|args|)| + |Bulks(args[..k])|
  }

  /** A request cut m bytes into a bulk string. */
  lemma CutInBulk(args: seq<bytes>, k: nat, m: nat)
    requires k < |args| && m <= |Bulk(args[k])|
    ensures BulkAt(args, k) + m <= |Encode(args)|
    ensures Encode(args)[..BulkAt(args, k) + m] == Opening(|args|) + Bulks(args[..k]) + Bulk(args[k])[..m]
  {
    hide Bulk, Decimal, Bulks;
    BulksConcat(args[..k], args[k..]);
    assert args[..k] + args[k..] == args;
    BulksOf(args[k..], []);
    assert args[k..] + [] == args[k..];
    var head, bulk, rest := Opening(|args|) + Bulks(args[..k]), Bulk(args[k]), Bulks(args[k..][1..]);
    EncodeOpening(args);
    assert Encode(args) == head + (bulk + rest);
    assert (head + (bulk + rest))[..|head| + m] == head + bulk[..m];
  }

  lemma EncodeOpening(args: seq<bytes>)
    ensures Encode(args) == Opening(|args|) + Bulks(args)
  {
    hide Bulks, Decimal;
  }

  /** Cut in the first line: nothing. */
  lemma TornOpening(args: seq<bytes>, n: nat)
    requires n < |Opening(|args|)|
    ensures n <= |Encode(args)| && Parse(Encode(args)[..n]) == []
  {
    hide Bulks, Decimal, Stoi, Substr;
    EncodeOpening(args);
    var request, line := Encode(args)[..n], ArrayLine(|args|);
    assert request == line[..n];
    assert LF !in line;
    assert request[0..] == request;
    NoLfAfter(request, 0);
    assert n > 0 ==> request[0] == line[0];
  }

  /** Cut in the data of an argument, d bytes into it and its line end: the arguments before it, and what is
      there of it. */
  lemma TornData(args: seq<bytes>, k: nat, d: nat)
    requires Short(args) && LfFree(args) && k < |args| && d <= |args[k]| + 1
    ensures var n := BulkAt(args, k) + |BulkLine(args[k])| + 1 + d;
            && n <= |Encode(args)|
            && Parse(Encode(args)[..n]) == args[..k] + [if d <= |args[k]| then args[k][..d] else args[k]]
  {
    hide Decimal, Stoi, AfterLf, Substr, Opening, Bulks, Parse, BulkLine, Encode, ParseArgs, Bulk;
    var arg, head, line := args[k], Opening(|args|) + Bulks(args[..k]), BulkLine(args[k]) + [LF];
    var part := (arg + CRLF)[..d];
    BulkLined(arg);
    assert (line + (arg + CRLF))[..|line| + d] == line + part;
    CutInBulk(args, k, |line| + d);
    Opened(|args|, args[..k], line + part);
    OpeningStar(|args|, Bulks(args[..k]));
    TornDataSteps(head, arg, d, |args| - k);
    assert head + (line + part) == head + line + part;
  }

  lemma OpeningStar(n: nat, rest: bytes)
    ensures Opening(n) + rest != [] && (Opening(n) + rest)[0] == STAR
  {
    hide Decimal;
  }

  lemma BulkLined(arg: bytes)
    ensures Bulk(arg) == BulkLine(arg) + [LF] + (arg + CRLF)
  {
    hide Decimal;
  }

  lemma TornDataSteps(head: bytes, arg: bytes, d: nat, n: nat)
    requires |arg| <= INT32_MAX && LF !in arg && d <= |arg| + 1 && n > 0
    requires head != [] && head[0] != DOLLAR
    ensures ParseArgs(head + (BulkLine(arg) + [LF]) + (arg + CRLF)[..d], |head|, n)
         == [if d <= |arg| then arg[..d] else arg]
  {
    hide Decimal, Stoi, AfterLf, BulkLine, Substr, ParseArgs;
    var line, part := BulkLine(arg), (arg + CRLF)[..d];
    var request, data := head + (line + [LF]) + part, |head| + |line| + 1;
    LineReads(head, arg, part);
    assert request == head + line + [LF] + part;
    SkipLine(head, line, part);
    assert request[data..] == part;
    assert LF !in part by { assert forall i :: 0 <= i < |part| ==> part[i] == (arg + [CR])[i]; }
    NoLfAfter(request, data);
    TornSubstr(head + (line + [LF]), arg, d);
    ParseOne(request, |head|, n, |arg|);
    assert request[0] == head[0];
    NotThere(request, n - 1);
  }

  lemma TornSubstr(head: bytes, arg: bytes, d: nat)
    requires d <= |arg| + 1
    ensures Substr(head + (arg + CRLF)[..d], |head|, |arg|) == if d <= |arg| then arg[..d] else arg
  {
    var part := (arg + CRLF)[..d];
    var request := head + part;
    assert request[|head|..] == part;
    if d <= |arg| {
      assert part == arg[..d];
    } else {
      assert part[..|arg|] == arg;
      assert request[|head|..|head| + |arg|] == part[..|arg|];
    }
  }

  /** One turn of the loop, with whatever the request holds. */
  lemma ParseOne(request: bytes, pos: nat, n: nat, len: int)
    requires pos < |request| && request[pos] == DOLLAR && n > 0 && Stoi(request[pos + 1..]) == Some(len)
    ensures var data := AfterLf(request, pos);
            ParseArgs(request, pos, n) == [Substr(request, data, len)] + ParseArgs(request, AfterLf(request, data), n - 1)
  {
    hide Stoi, AfterLf, Substr;
  }

  lemma NotThere(request: bytes, n: int)
    requires request != [] && request[0] != DOLLAR
    ensures ParseArgs(request, 0, n) == []
  {
    hide Stoi, AfterLf, Substr;
  }

  lemma LineReads(head: bytes, arg: bytes, rest: bytes)
    requires |arg| <= INT32_MAX
    ensures var request := head + (BulkLine(arg) + [LF]) + rest;
            request[|head|] == DOLLAR && Stoi(request[|head| + 1..]) == Some(|arg|)
  {
    hide Decimal, Stoi;
    var request := head + (BulkLine(arg) + [LF]) + rest;
    assert request == head + ([DOLLAR] + (Decimal(|arg|) + (CRLF + rest)));
    Behind(head, DOLLAR, Decimal(|arg|) + (CRLF + rest));
    StoiOfDecimal(|arg|, CRLF + rest);
  }

  // ---------------------------------------------------------------- a cut in a header line

  /** c elements of the sequence repeated over and over. */
  function Cycle(s: seq<bytes>, c: nat): (r: seq<bytes>)
    requires s != []
    ensures |r| == c
  {
    if c <= |s| then s[..c] else s + Cycle(s, c - |s|)
  }

  lemma {:induction false} CycleAt(s: seq<bytes>, c: nat, i: nat)
    requires s != [] && i < c
    ensures Cycle(s, c)[i] == s[i % |s|]
  {
    if c > |s| && i >= |s| {
      CycleAt(s, c - |s|, i - |s|);
      SameRest(i, |s|);
    } else {
      SmallRest(i, |s|);
    }
  }

  lemma SmallRest(i: nat, n: nat)
    requires i < n
    ensures i % n == i
  {
  }

  lemma SameRest(i: nat, n: nat)
    requires 0 < n <= i
    ensures (i - n) % n == i % n
  {
    OneMore((i - n) / n, n);
    Unique(i / n, i % n, (i - n) / n + 1, (i - n) % n, n);
  }

  lemma OneMore(q: int, n: int)
    ensures (q + 1) * n == q * n + n
  {
  }

  lemma Unique(p: int, r: int, q: int, s: int, n: int)
    requires 0 <= r < n && 0 <= s < n && p * n + r == q * n + s
    ensures r == s
  {
    Difference(p, q, n);
    if p < q { AtLeastOne(q - p, n); } else if q < p { AtLeastOne(p - q, n); }
  }

  lemma Difference(p: int, q: int, n: int)
    ensures (q - p) * n == q * n - p * n && (p - q) * n == p * n - q * n
  {
  }

  lemma AtLeastOne(d: int, n: int)
    requires d >= 1 && n > 0
    ensures d * n >= n
  {
  }

  /** The first v bytes, or all there are. */
  function Front(request: bytes, v: nat): bytes {
    if v > |request| then request else request[..v]
  }

  lemma {:induction false} NumberPrefix(digits: bytes, d: nat)
    requires AllDigits(digits) && d <= |digits|
    ensures Number(digits[..d]) <= Number(digits)
    decreases |digits|
  {
    if d < |digits| {
      NumberPrefix(digits[..|digits| - 1], d);
      assert digits[..|digits| - 1][..d] == digits[..d];
    } else {
      assert digits[..d] == digits;
    }
  }

  /** What the digits that are there say. */
  function CutLength(arg: bytes, m: nat): nat
    requires m >= 2
  {
    Number(Decimal(|arg|)[..if m - 1 <= |Decimal(|arg|)| then m - 1 else |Decimal(|arg|)|])
  }

  lemma CutLine(arg: bytes, m: nat)
    requires |arg| <= INT32_MAX && m <= |BulkLine(arg)|
    ensures var frag := BulkLine(arg)[..m];
            && LF !in frag
            && (m >= 1 ==> frag[0] == DOLLAR)
            && (m == 1 ==> Stoi(frag[1..]) == None)
            && (m >= 2 ==> Stoi(frag[1..]) == Some(CutLength(arg, m)))
  {
    hide Decimal, Number, Stoi;
    var line, digits := BulkLine(arg), Decimal(|arg|);
    var frag := line[..m];
    assert LF !in line;
    if m == 1 {
      StoiText([], [], [], []);
      assert frag[1..] == [] + ([] + [] + []);
    } else if m >= 2 {
      var d := if m - 1 <= |digits| then m - 1 else |digits|;
      var rest: bytes := if m - 1 <= |digits| then [] else [CR];
      assert frag[1..] == digits[..d] + rest;
      NumberPrefix(digits, d);
      NumberOfDecimal(|arg|);
      StoiOfDigits(digits[..d], rest);
    }
  }

  /** One turn at a torn header: as many bytes of the request as its digits say, and back to the first
      argument. */
  lemma TornTurn(n: nat, args: seq<bytes>, frag: bytes, v: nat, c: nat)
    requires n <= INT32_MAX && c > 0 && frag != [] && frag[0] == DOLLAR && LF !in frag && Stoi(frag[1..]) == Some(v)
    ensures var request, pos := Opening(n) + Bulks(args) + frag, |Opening(n) + Bulks(args)|;
            && pos <= |request| && |Opening(n)| <= |request|
            && ParseArgs(request, pos, c) == [Front(request, v)] + ParseArgs(request, |Opening(n)|, c - 1)
  {
    hide Opening, Stoi, AfterLf, Bulks;
    var head := Opening(n) + Bulks(args);
    var request := head + frag;
    assert request[|head|..] == frag && request[|head|] == frag[0] && request[|head| + 1..] == frag[1..];
    NoLfAfter(request, |head|);
    assert request == Opening(n) + (Bulks(args) + frag);
    OpeningSteps(n, Bulks(args) + frag);
  }

  lemma {:induction false} TornRounds(n: nat, args: seq<bytes>, frag: bytes, v: nat, c: nat)
    requires Short(args) && LfFree(args) && n <= INT32_MAX
    requires frag != [] && frag[0] == DOLLAR && LF !in frag && Stoi(frag[1..]) == Some(v)
    ensures var request := Opening(n) + Bulks(args) + frag;
            ParseArgs(request, |Opening(n)|, c) == Cycle(args + [Front(request, v)], c)
    decreases c
  {
    hide Opening, Stoi, AfterLf, Bulks, ParseArgs, Front, Cycle;
    var request := Opening(n) + Bulks(args) + frag;
    var all := args + [Front(request, v)];
    if c <= |args| {
      var some, more := args[..c], args[c..];
      BulksConcat(some, more);
      assert some + more == args;
      assert Opening(n) + Bulks(some) + (Bulks(more) + frag) == request;
      PrefixCounts(Opening(n), some, Bulks(more) + frag, 0);
      NoMore(request, |Opening(n) + Bulks(some)|);
      CycleShort(all, c);
      assert some + [] == all[..c];
    } else {
      PrefixCounts(Opening(n), args, frag, c - |args|);
      TornTurn(n, args, frag, v, c - |args|);
      TornRounds(n, args, frag, v, c - |args| - 1);
      CycleLong(all, c);
      assert args + ([Front(request, v)] + Cycle(all, c - |all|)) == all + Cycle(all, c - |all|);
    }
  }

  lemma CycleShort(s: seq<bytes>, c: nat)
    requires s != [] && c <= |s|
    ensures Cycle(s, c) == s[..c]
  {
  }

  lemma CycleLong(s: seq<bytes>, c: nat)
    requires s != [] && c >= |s|
    ensures Cycle(s, c) == s + Cycle(s, c - |s|)
  {
    if c == |s| { assert s[..c] == s && s + [] == s; }
  }

  /** Cut in the header line of an argument: before its first digit, the arguments before it; behind one, the
      parser goes around, and returns as many results as were announced: the arguments before it and as
      many bytes of the request itself as the digits that are there say, over and over. */
  lemma TornHeader(args: seq<bytes>, k: nat, m: nat)
    requires Short(args) && LfFree(args) && k < |args| && m <= |BulkLine(args[k])|
    ensures var n := BulkAt(args, k) + m;
            && n <= |Encode(args)|
            && var request := Encode(args)[..n];
               Parse(request)
               == if m < 2 then args[..k]
                  else Cycle(args[..k] + [Front(request, CutLength(args[k], m))], |args|)
  {
    hide Stoi, Opening, Bulks, Parse, BulkLine, Encode, ParseArgs, Bulk, Front, Cycle, CutLength, AfterLf;
    var arg := args[k];
    var frag := BulkLine(arg)[..m];
    BulkLined(arg);
    assert Bulk(arg)[..m] == frag;
    CutInBulk(args, k, m);
    CutLine(arg, m);
    if m == 0 {
      StopsAtOther(|args|, args[..k], frag);
    } else if m == 1 {
      assert frag == [DOLLAR] + frag[1..];
      StopsAtBadLength(|args|, args[..k], frag[1..]);
    } else {
      var v := CutLength(arg, m);
      OpeningFirst(|args|, args[..k], frag);
      TornRounds(|args|, args[..k], frag, v, |args|);
    }
  }

  lemma OpeningFirst(n: nat, args: seq<bytes>, frag: bytes)
    requires n <= INT32_MAX
    ensures var request := Opening(n) + Bulks(args) + frag;
            |Opening(n)| <= |request| && Parse(request) == ParseArgs(request, |Opening(n)|, n)
  {
    hide Opening, Bulks, Parse, ParseArgs;
    assert Opening(n) + Bulks(args) + frag == Opening(n) + (Bulks(args) + frag);
    OpeningSteps(n, Bulks(args) + frag);
  }
}
