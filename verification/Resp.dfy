// The Redis serialization protocol (RESP2): printing commands and reading replies.
module Resp {
  import opened Wrappers

  type Byte = b: int | 0 <= b < 256

  type Bytes = seq<Byte>

  const LF: Byte := 10
  const CR: Byte := 13
  const CRLF: Bytes := [CR, LF]

  // ---------- printing ----------

  function Digits(n: nat): Bytes {
    if n < 10 then [48 + n] else Digits(n / 10) + [48 + n % 10]
  }

  function Header(prefix: Byte, n: nat): Bytes {
    [prefix] + Digits(n) + CRLF
  }

  // '$', length, the bytes, all terminated.
  function EncodeBulk(part: Bytes): Bytes {
    Header(36, |part|) + part + CRLF
  }

  function EncodeParts(parts: seq<Bytes>): Bytes {
    if parts == [] then [] else EncodeBulk(parts[0]) + EncodeParts(parts[1..])
  }

  // '*', count, then the bulk strings.
  function Encode(parts: seq<Bytes>): Bytes {
    Header(42, |parts|) + EncodeParts(parts)
  }

  function Join(pieces: seq<Bytes>): Bytes {
    if pieces == [] then [] else pieces[0] + Join(pieces[1..])
  }

  lemma {:induction false} JoinAppend(a: seq<Bytes>, b: seq<Bytes>)
    ensures Join(a + b) == Join(a) + Join(b)
  {
    if a == [] {
      assert a + b == b;
    } else {
      assert (a + b)[1..] == a[1..] + b;
      JoinAppend(a[1..], b);
    }
  }

  // Adding the three pieces of one part to the frame.
  lemma FrameStep(frame: seq<Bytes>, part: Bytes, rest: Bytes)
    ensures Join(frame + [Header(36, |part|), part, CRLF]) + rest == Join(frame) + (EncodeBulk(part) + rest)
  {
    var pieces := [Header(36, |part|), part, CRLF];
    JoinAppend(frame, pieces);
    assert Join(pieces) == EncodeBulk(part) by {
      assert pieces == [pieces[0]] + ([part] + [CRLF]);
      JoinAppend([pieces[0]], [part] + [CRLF]);
      JoinAppend([part], [CRLF]);
    }
    assert (Join(frame) + EncodeBulk(part)) + rest == Join(frame) + (EncodeBulk(part) + rest);
  }

  // The program's frame: a list of pieces, joined at the end.
  method EncodeCommand(parts: seq<Bytes>) returns (command: Bytes)
    ensures command == Encode(parts)
  {
    var frame := [Header(42, |parts|)];
    assert parts[0..] == parts && Join(frame) == frame[0] + Join([]) == frame[0];
    for i := 0 to |parts|
      invariant Join(frame) + EncodeParts(parts[i..]) == Encode(parts)
    {
      assert parts[i..][1..] == parts[i + 1..];
      FrameStep(frame, parts[i], EncodeParts(parts[i + 1..]));
      frame := frame + [Header(36, |parts[i]|), parts[i], CRLF];
    }
    command := Join(frame);
    assert command + [] == command;
  }

  // ---------- reading ----------

  datatype Reply = Nil | Text(text: Bytes) | Integer(n: int) | List(items: seq<Reply>)

  datatype RespError =
    | ConnectionClosed
    | MalformedLine
    | MalformedBulk
    | BadInteger
    | BadText
    | UnknownPrefix(prefix: Byte)
    | ServerError(message: Bytes)

  // Whether bytes are text.  The program decodes UTF-8; nothing here depends on which
  // byte strings that accepts.
  type Decoder = Bytes -> bool

  // A value or an error, with the bytes left over: the reader's position afterwards.
  datatype Read<+T> = Done(value: T, rest: Bytes) | Fail(error: RespError, rest: Bytes)

  function FindLF(s: Bytes): (i: nat)
    ensures i <= |s|
    ensures i < |s| ==> s[i] == LF
    ensures forall k | 0 <= k < i :: s[k] != LF
  {
    if s == [] || s[0] == LF then 0 else 1 + FindLF(s[1..])
  }

  // A line runs to the first line feed, or to the end of the stream.
  function ReadLine(s: Bytes): (r: Read<Bytes>)
    ensures |r.rest| <= |s| && (r.Done? ==> |r.rest| < |s|)
  {
    var i := FindLF(s);
    if s == [] then Fail(ConnectionClosed, s)
    else if i == |s| then Fail(MalformedLine, [])
    else if i == 0 || s[i - 1] != CR then Fail(MalformedLine, s[i + 1..])
    else Done(s[..i - 1], s[i + 1..])
  }

  predicate IsSpace(b: Byte) {
    b == 32 || 9 <= b <= 13
  }

  predicate IsDigit(b: Byte) {
    48 <= b <= 57
  }

  function TrimLeft(s: Bytes): Bytes {
    if s != [] && IsSpace(s[0]) then TrimLeft(s[1..]) else s
  }

  function TrimRight(s: Bytes): Bytes {
    if s != [] && IsSpace(s[|s| - 1]) then TrimRight(s[..|s| - 1]) else s
  }

  // Digits with single underscores allowed between them.
  function ParseDigits(s: Bytes, value: nat, afterDigit: bool): Option<nat>
    decreases s
  {
    if s == [] then (if afterDigit then Some(value) else None)
    else if IsDigit(s[0]) then ParseDigits(s[1..], 10 * value + (s[0] - 48), true)
    else if s[0] == 95 && afterDigit then ParseDigits(s[1..], value, false)
    else None
  }

  // The language's integer literal reader: surrounding space, optional sign, digits.
  function ParseInt(line: Bytes): Option<int> {
    var s := TrimRight(TrimLeft(line));
    var negative := s != [] && s[0] == 45;
    var digits := if s != [] && (s[0] == 45 || s[0] == 43) then s[1..] else s;
    match ParseDigits(digits, 0, false)
    case None => None
    case Some(n) => var value: int := n; Some(if negative then -value else value)
  }

  function ReadInt(s: Bytes): (r: Read<int>)
    ensures |r.rest| <= |s| && (r.Done? ==> |r.rest| < |s|)
  {
    match ReadLine(s)
    case Fail(error, rest) => Fail(error, rest)
    case Done(line, rest) =>
      match ParseInt(line)
      case None => Fail(BadInteger, rest)
      case Some(n) => Done(n, rest)
  }

  // A negative count asks the stream for everything that is left.
  function Taken(s: Bytes, count: int): nat {
    if count < 0 || count > |s| then |s| else count
  }

  function Decoded(ok: Decoder, text: Bytes, rest: Bytes): (r: Read<Reply>)
    ensures r.rest == rest
  {
    if ok(text) then Done(Text(text), rest) else Fail(BadText, rest)
  }

  function ReadBulk(ok: Decoder, s: Bytes, length: int): (r: Read<Reply>)
    ensures |r.rest| <= |s|
  {
    if length == -1 then Done(Nil, s)
    else
      var n := Taken(s, length);
      var after := s[n..];
      var two := Taken(after, 2);
      if n != length || after[..two] != CRLF then Fail(MalformedBulk, after[two..])
      else Decoded(ok, s[..n], after[two..])
  }

  function ReadResp(ok: Decoder, s: Bytes): (r: Read<Reply>)
    ensures |r.rest| <= |s| && (r.Done? ==> |r.rest| < |s|)
    decreases |s|, 0
  {
    if s == [] then Fail(ConnectionClosed, s)
    else
      var prefix, body := s[0], s[1..];
      if prefix == 43 then
        match ReadLine(body)
        case Fail(error, rest) => Fail(error, rest)
        case Done(line, rest) => Decoded(ok, line, rest)
      else if prefix == 45 then
        match ReadLine(body)
        case Fail(error, rest) => Fail(error, rest)
        case Done(line, rest) => Fail(if ok(line) then ServerError(line) else BadText, rest)
      else if prefix == 58 || prefix == 36 || prefix == 42 then
        match ReadInt(body)
        case Fail(error, rest) => Fail(error, rest)
        case Done(n, rest) => ReadCounted(ok, prefix, n, rest)
      else Fail(UnknownPrefix(prefix), body)
  }

  // What follows the number: nothing, that many bytes, or that many replies.
  function ReadCounted(ok: Decoder, prefix: Byte, n: int, s: Bytes): (r: Read<Reply>)
    ensures |r.rest| <= |s|
    decreases |s|, 2
  {
    if prefix == 58 then Done(Integer(n), s)
    else if prefix == 36 then ReadBulk(ok, s, n)
    else if n == -1 then Done(Nil, s)
    else Listed(ReadMany(ok, if n < 0 then 0 else n, s))
  }

  function Listed(r: Read<seq<Reply>>): Read<Reply> {
    match r
    case Fail(error, rest) => Fail(error, rest)
    case Done(items, rest) => Done(List(items), rest)
  }

  function ReadMany(ok: Decoder, count: nat, s: Bytes): (r: Read<seq<Reply>>)
    ensures |r.rest| <= |s|
    decreases |s|, 1
  {
    if count == 0 then Done([], s)
    else
      match ReadResp(ok, s)
      case Fail(error, rest) => Fail(error, rest)
      case Done(first, rest) => After([first], ReadMany(ok, count - 1, rest))
  }

  // `items` read before what `r` reads.
  function After(items: seq<Reply>, r: Read<seq<Reply>>): Read<seq<Reply>> {
    match r
    case Fail(error, rest) => Fail(error, rest)
    case Done(more, rest) => Done(items + more, rest)
  }

  // A result together with where it leaves the stream.
  ghost function Outcome<T>(result: Result<T, RespError>, rest: Bytes): Read<T> {
    match result
    case Success(value) => Done(value, rest)
    case Failure(error) => Fail(error, rest)
  }

  // ---------- the reader over a stream position ----------

  class BinaryStream {
    const data: Bytes
    const ok: Decoder
    var pos: nat

    ghost predicate Valid()
      reads this
    {
      pos <= |data|
    }

    ghost function Rest(): Bytes
      requires Valid()
      reads this
    {
      data[pos..]
    }

    constructor (data: Bytes, ok: Decoder)
      ensures Valid() && Rest() == data && this.ok == ok
    {
      this.data := data;
      this.ok := ok;
      pos := 0;
    }

    method Read(count: int) returns (taken: Bytes)
      requires Valid()
      modifies this
      ensures Valid()
      ensures var n := Taken(old(Rest()), count); taken == old(Rest())[..n] && Rest() == old(Rest())[n..]
    {
      var n := Taken(data[pos..], count);
      taken := data[pos..pos + n];
      pos := pos + n;
    }

    method Line() returns (result: Result<Bytes, RespError>)
      requires Valid()
      modifies this
      ensures Valid()
      ensures Outcome(result, Rest()) == ReadLine(old(Rest()))
    {
      var rest := data[pos..];
      var i := FindLF(rest);
      var line := if i < |rest| then rest[..i + 1] else rest;
      pos := pos + |line|;
      if line == [] {
        return Failure(ConnectionClosed);
      }
      if |line| < 2 || line[|line| - 2] != CR || line[|line| - 1] != LF {
        return Failure(MalformedLine);
      }
      assert line[..|line| - 2] == rest[..i - 1] && data[pos..] == rest[i + 1..];
      return Success(line[..|line| - 2]);
    }

    method Int() returns (result: Result<int, RespError>)
      requires Valid()
      modifies this
      ensures Valid()
      ensures Outcome(result, Rest()) == ReadInt(old(Rest()))
    {
      var line := Line();
      if line.Failure? {
        return Failure(line.error);
      }
      var n := ParseInt(line.value);
      if n.None? {
        return Failure(BadInteger);
      }
      return Success(n.value);
    }

    method Bulk(length: int) returns (result: Result<Reply, RespError>)
      requires Valid()
      modifies this
      ensures Valid()
      ensures Outcome(result, Rest()) == ReadBulk(ok, old(Rest()), length)
    {
      if length == -1 {
        return Success(Nil);
      }
      var bytes := Read(length);
      var terminator := Read(2);
      if |bytes| != length || terminator != CRLF {
        return Failure(MalformedBulk);
      }
      return if ok(bytes) then Success(Text(bytes)) else Failure(BadText);
    }

    method Reply() returns (result: Result<Reply, RespError>)
      requires Valid()
      modifies this
      ensures Valid()
      ensures Outcome(result, Rest()) == ReadResp(ok, old(Rest()))
      decreases |Rest()|, 0
    {
      var prefix := Read(1);
      if prefix == [] {
        return Failure(ConnectionClosed);
      }
      if prefix[0] == 43 || prefix[0] == 45 {
        var line := Line();
        if line.Failure? {
          return Failure(line.error);
        }
        if !ok(line.value) {
          return Failure(BadText);
        }
        return if prefix[0] == 43 then Success(Text(line.value)) else Failure(ServerError(line.value));
      }
      if prefix[0] == 58 || prefix[0] == 36 || prefix[0] == 42 {
        var n := Int();
        if n.Failure? {
          return Failure(n.error);
        }
        result := Counted(prefix[0], n.value);
        return;
      }
      return Failure(UnknownPrefix(prefix[0]));
    }

    method Counted(prefix: Byte, n: int) returns (result: Result<Reply, RespError>)
      requires Valid()
      modifies this
      ensures Valid()
      ensures Outcome(result, Rest()) == ReadCounted(ok, prefix, n, old(Rest()))
      decreases |Rest()|, 2
    {
      if prefix == 58 {
        return Success(Integer(n));
      }
      if prefix == 36 {
        result := Bulk(n);
        return;
      }
      if n == -1 {
        return Success(Nil);
      }
      var items := Replies(if n < 0 then 0 else n);
      return if items.Failure? then Failure(items.error) else Success(List(items.value));
    }

    method Replies(count: nat) returns (result: Result<seq<Reply>, RespError>)
      requires Valid()
      modifies this
      ensures Valid()
      ensures Outcome(result, Rest()) == ReadMany(ok, count, old(Rest()))
      decreases |Rest()|, 1
    {
      hide ReadResp, ReadMany, ReadCounted, ReadBulk, ReadInt, ReadLine;
      var replies: seq<Reply> := [];
      ghost var start := Rest();
      ghost var all := ReadMany(ok, count, start);
      NothingBefore(all);
      for i := 0 to count
        invariant Valid() && |Rest()| <= |start|
        invariant all == After(replies, ReadMany(ok, count - i, Rest()))
      {
        ghost var before := Rest();
        var one := Reply();
        ReadManyStep(ok, replies, count - i, before, Outcome(one, Rest()));
        if one.Failure? {
          return Failure(one.error);
        }
        replies := replies + [one.value];
      }
      ReadNoMore(ok, replies, Rest());
      return Success(replies);
    }
  }

  lemma NothingBefore(r: Read<seq<Reply>>)
    ensures After([], r) == r
  {
    if r.Done? {
      assert [] + r.value == r.value;
    }
  }

  lemma FirstOfMany(ok: Decoder, count: nat, s: Bytes, one: Read<Reply>)
    requires count > 0 && one == ReadResp(ok, s)
    ensures ReadMany(ok, count, s)
            == match one
               case Fail(error, rest) => Fail(error, rest)
               case Done(reply, rest) => After([reply], ReadMany(ok, count - 1, rest))
  {
  }

  // Reading one more reply, `one`, off `s`.
  lemma ReadManyStep(ok: Decoder, items: seq<Reply>, count: nat, s: Bytes, one: Read<Reply>)
    requires count > 0 && one == ReadResp(ok, s)
    ensures After(items, ReadMany(ok, count, s))
            == match one
               case Fail(error, rest) => Fail(error, rest)
               case Done(reply, rest) => After(items + [reply], ReadMany(ok, count - 1, rest))
  {
    if one.Done? {
      AfterBoth(items, [one.value], ReadMany(ok, count - 1, one.rest));
    }
  }

  lemma AfterBoth(a: seq<Reply>, b: seq<Reply>, r: Read<seq<Reply>>)
    ensures After(a, After(b, r)) == After(a + b, r)
  {
    if r.Done? {
      assert a + (b + r.value) == (a + b) + r.value;
    }
  }

  lemma ReadNoMore(ok: Decoder, items: seq<Reply>, s: Bytes)
    ensures After(items, ReadMany(ok, 0, s)) == Done(items, s)
  {
    assert items + [] == items;
  }

  // ---------- numbers ----------

  lemma {:induction false} DigitsAreDigits(n: nat)
    ensures Digits(n) != [] && forall b | b in Digits(n) :: IsDigit(b)
  {
    if n >= 10 {
      DigitsAreDigits(n / 10);
    }
  }

  lemma {:induction false} ParseAfterDigits(n: nat, rest: Bytes, afterDigit: bool)
    ensures ParseDigits(Digits(n) + rest, 0, afterDigit) == ParseDigits(rest, n, true)
    decreases n
  {
    if n < 10 {
      assert (Digits(n) + rest)[1..] == rest;
    } else {
      var last: Bytes := [48 + n % 10];
      assert Digits(n) + rest == Digits(n / 10) + (last + rest);
      ParseAfterDigits(n / 10, last + rest, afterDigit);
      assert (last + rest)[1..] == rest;
    }
  }

  // The decimal form the protocol gives an integer.
  ghost function Signed(n: int): Bytes {
    if n < 0 then [45] + Digits(-n) else Digits(n)
  }

  // Decimal printing is undone by the integer reader.
  lemma IntegerRoundTrip(n: int)
    ensures ParseInt(Signed(n)) == Some(n)
  {
    var m := if n < 0 then -n else n;
    var d, s := Digits(m), Signed(n);
    DigitsAreDigits(m);
    assert IsDigit(d[0]) by { assert d[0] in d; }
    assert IsDigit(d[|d| - 1]) by { assert d[|d| - 1] in d; }
    assert s[|s| - 1] == d[|d| - 1];
    assert TrimRight(TrimLeft(s)) == s;
    assert n < 0 ==> s[1..] == d;
    ParseAfterDigits(m, [], false);
    assert d + [] == d;
  }

  lemma {:induction false} FirstLF(s: Bytes, i: nat)
    requires i < |s| && s[i] == LF
    requires forall k | 0 <= k < i :: s[k] != LF
    ensures FindLF(s) == i
  {
    var j := FindLF(s);
    assert j < |s| ==> s[j] == LF;
  }

  lemma ReadPrintedInt(n: int, suffix: Bytes)
    ensures ReadInt(Signed(n) + CRLF + suffix) == Done(n, suffix)
  {
    var d := Signed(n);
    var s := d + CRLF + suffix;
    DigitsAreDigits(if n < 0 then -n else n);
    forall k | 0 <= k < |d| + 1
      ensures s[k] != LF
    {
      if k < |d| {
        assert d[k] in d;
      }
    }
    FirstLF(s, |d| + 1);
    assert s[..|d|] == d && s[|d| + 2..] == suffix;
    IntegerRoundTrip(n);
  }

  // ---------- round trip ----------

  // The standard's printed form of any reply: null, bulk string, integer, array.
  ghost function Print(reply: Reply): Bytes {
    match reply
    case Nil => [36] + Signed(-1) + CRLF
    case Text(text) => EncodeBulk(text)
    case Integer(n) => [58] + Signed(n) + CRLF
    case List(items) => Header(42, |items|) + PrintAll(items)
  }

  ghost function PrintAll(items: seq<Reply>): Bytes {
    if items == [] then [] else Print(items[0]) + PrintAll(items[1..])
  }

  lemma HeaderRoundTrip(ok: Decoder, prefix: Byte, n: int, after: Bytes)
    requires prefix == 36 || prefix == 42 || prefix == 58
    ensures ReadResp(ok, [prefix] + Signed(n) + CRLF + after) == ReadCounted(ok, prefix, n, after)
  {
    var s := [prefix] + Signed(n) + CRLF + after;
    assert s[1..] == Signed(n) + CRLF + after;
    ReadPrintedInt(n, after);
  }

  lemma BulkRoundTrip(ok: Decoder, part: Bytes, suffix: Bytes)
    ensures ReadResp(ok, EncodeBulk(part) + suffix) == Decoded(ok, part, suffix)
  {
    var after := part + (CRLF + suffix);
    assert EncodeBulk(part) + suffix == Header(36, |part|) + after;
    HeaderRoundTrip(ok, 36, |part|, after);
    assert after[..|part|] == part && after[|part|..] == CRLF + suffix;
    assert (CRLF + suffix)[..2] == CRLF && (CRLF + suffix)[2..] == suffix;
  }

  // Every byte string in the reply is text.
  ghost predicate IsText(ok: Decoder, reply: Reply) {
    match reply
    case Text(text) => ok(text)
    case List(items) => AreText(ok, items)
    case _ => true
  }

  ghost predicate AreText(ok: Decoder, items: seq<Reply>) {
    items == [] || (IsText(ok, items[0]) && AreText(ok, items[1..]))
  }

  // Every reply, nested to any depth, is read back from its printed form, exactly
  // when its byte strings are text; otherwise that is the error.
  lemma {:induction false} ReplyRoundTrip(ok: Decoder, reply: Reply, suffix: Bytes)
    ensures var r := ReadResp(ok, Print(reply) + suffix);
            if IsText(ok, reply) then r == Done(reply, suffix) else r.Fail? && r.error == BadText
    decreases reply
  {
    match reply
    case Nil => HeaderRoundTrip(ok, 36, -1, suffix);
    case Text(text) => BulkRoundTrip(ok, text, suffix);
    case Integer(n) => HeaderRoundTrip(ok, 58, n, suffix);
    case List(items) =>
      assert Print(reply) + suffix == Header(42, |items|) + (PrintAll(items) + suffix);
      HeaderRoundTrip(ok, 42, |items|, PrintAll(items) + suffix);
      RepliesRoundTrip(ok, items, suffix);
  }

  // Replies written back to back are read back in order.
  lemma {:induction false} RepliesRoundTrip(ok: Decoder, items: seq<Reply>, suffix: Bytes)
    ensures var r := ReadMany(ok, |items|, PrintAll(items) + suffix);
            if AreText(ok, items) then r == Done(items, suffix) else r.Fail? && r.error == BadText
    decreases items
  {
    hide *;
    if items == [] {
      NoneRoundTrip(ok, suffix);
    } else {
      var first, others := items[0], items[1..];
      var tail := PrintAll(others) + suffix;
      ReplyRoundTrip(ok, first, tail);
      RepliesRoundTrip(ok, others, suffix);
      PrintAllSplits(first, others, suffix);
      TextSplits(ok, first, others);
      assert items == [first] + others;
      FirstOfMany(ok, |items|, Print(first) + tail, ReadResp(ok, Print(first) + tail));
      OneMoreReply(first, ReadMany(ok, |others|, tail));
    }
  }

  lemma NoneRoundTrip(ok: Decoder, suffix: Bytes)
    ensures ReadMany(ok, 0, PrintAll([]) + suffix) == Done([], suffix) && AreText(ok, [])
  {
    assert PrintAll([]) + suffix == suffix;
  }

  lemma PrintAllSplits(first: Reply, others: seq<Reply>, suffix: Bytes)
    ensures PrintAll([first] + others) + suffix == Print(first) + (PrintAll(others) + suffix)
  {
    assert ([first] + others)[1..] == others;
  }

  lemma TextSplits(ok: Decoder, first: Reply, others: seq<Reply>)
    ensures AreText(ok, [first] + others) <==> IsText(ok, first) && AreText(ok, others)
  {
    assert ([first] + others)[1..] == others;
  }

  lemma OneMoreReply(first: Reply, r: Read<seq<Reply>>)
    ensures After([first], r) == match r
                                 case Fail(error, rest) => Fail(error, rest)
                                 case Done(others, rest) => Done([first] + others, rest)
  {
  }

  // What a command's parts look like to the reader.
  ghost function Texts(parts: seq<Bytes>): seq<Reply> {
    if parts == [] then [] else [Text(parts[0])] + Texts(parts[1..])
  }

  lemma {:induction false} PartsArePrinted(parts: seq<Bytes>)
    ensures |Texts(parts)| == |parts| && EncodeParts(parts) == PrintAll(Texts(parts))
    ensures forall i | 0 <= i < |parts| :: Texts(parts)[i] == Text(parts[i])
  {
    if parts != [] {
      PartsArePrinted(parts[1..]);
      assert Texts(parts)[1..] == Texts(parts[1..]);
    }
  }

  predicate AllText(ok: Decoder, parts: seq<Bytes>) {
    parts == [] || (ok(parts[0]) && AllText(ok, parts[1..]))
  }

  lemma {:induction false} TextsAreText(ok: Decoder, parts: seq<Bytes>)
    ensures AreText(ok, Texts(parts)) <==> AllText(ok, parts)
  {
    if parts != [] {
      TextsAreText(ok, parts[1..]);
      assert Texts(parts)[0] == Text(parts[0]) && Texts(parts)[1..] == Texts(parts[1..]);
    }
  }

  // Reading an encoded command returns its parts and leaves exactly what followed
  // it, exactly when every part is text; parts the encoder makes of strings are.
  lemma CommandRoundTrip(ok: Decoder, parts: seq<Bytes>, suffix: Bytes)
    ensures var r := ReadResp(ok, Encode(parts) + suffix);
            if AllText(ok, parts) then r == Done(List(Texts(parts)), suffix)
            else r.Fail? && r.error == BadText
  {
    PartsArePrinted(parts);
    TextsAreText(ok, parts);
    ReplyRoundTrip(ok, List(Texts(parts)), suffix);
  }

  ghost function Pipeline(commands: seq<seq<Bytes>>): Bytes {
    if commands == [] then [] else Encode(commands[0]) + Pipeline(commands[1..])
  }

  ghost function Commands(commands: seq<seq<Bytes>>): seq<Reply> {
    if commands == [] then [] else [List(Texts(commands[0]))] + Commands(commands[1..])
  }

  lemma {:induction false} PipelineIsPrinted(commands: seq<seq<Bytes>>)
    ensures |Commands(commands)| == |commands| && Pipeline(commands) == PrintAll(Commands(commands))
  {
    if commands != [] {
      PartsArePrinted(commands[0]);
      PipelineIsPrinted(commands[1..]);
      assert Commands(commands)[1..] == Commands(commands[1..]);
    }
  }

  lemma {:induction false} CommandsAreText(ok: Decoder, commands: seq<seq<Bytes>>)
    ensures AreText(ok, Commands(commands)) <==>
            forall command | command in commands :: AllText(ok, command)
  {
    if commands != [] {
      TextsAreText(ok, commands[0]);
      CommandsAreText(ok, commands[1..]);
      assert Commands(commands)[1..] == Commands(commands[1..]);
      assert commands == [commands[0]] + commands[1..];
    }
  }

  // Commands written back to back are read back in order.
  lemma PipelineRoundTrip(ok: Decoder, commands: seq<seq<Bytes>>, suffix: Bytes)
    ensures var r := ReadMany(ok, |commands|, Pipeline(commands) + suffix);
            if forall command | command in commands :: AllText(ok, command)
            then r == Done(Commands(commands), suffix)
            else r.Fail? && r.error == BadText
  {
    PipelineIsPrinted(commands);
    CommandsAreText(ok, commands);
    RepliesRoundTrip(ok, Commands(commands), suffix);
  }

  lemma {:induction false} AnyText(parts: seq<Bytes>)
    ensures AllText(_ => true, parts)
  {
    if parts != [] {
      AnyText(parts[1..]);
    }
  }

  // Different commands have different encodings, text or not.
  lemma EncodingIsInjective(a: seq<Bytes>, b: seq<Bytes>)
    requires Encode(a) == Encode(b)
    ensures a == b
  {
    var any: Decoder := _ => true;
    CommandRoundTrip(any, a, []);
    CommandRoundTrip(any, b, []);
    PartsArePrinted(a);
    PartsArePrinted(b);
    AnyText(a);
    AnyText(b);
    assert Texts(a) == Texts(b);
    assert forall i | 0 <= i < |a| :: Texts(a)[i] == Text(a[i]) && Texts(b)[i] == Text(b[i]);
  }

  // ---------- more bytes never change a finished read ----------

  lemma LineExtends(s: Bytes, more: Bytes)
    requires ReadLine(s).Done?
    ensures ReadLine(s + more) == Done(ReadLine(s).value, ReadLine(s).rest + more)
  {
    var i := FindLF(s);
    FirstLF(s + more, i);
    assert (s + more)[..i - 1] == s[..i - 1];
    assert (s + more)[i + 1..] == s[i + 1..] + more;
  }

  lemma IntExtends(s: Bytes, more: Bytes)
    requires ReadInt(s).Done?
    ensures ReadInt(s + more) == Done(ReadInt(s).value, ReadInt(s).rest + more)
  {
    LineExtends(s, more);
  }

  lemma BulkExtends(ok: Decoder, s: Bytes, length: int, more: Bytes)
    requires ReadBulk(ok, s, length).Done?
    ensures ReadBulk(ok, s + more, length) == Done(ReadBulk(ok, s, length).value, ReadBulk(ok, s, length).rest + more)
  {
    if length != -1 {
      assert (s + more)[..length] == s[..length];
      assert (s + more)[length..] == s[length..] + more;
      assert (s[length..] + more)[..2] == s[length..][..2];
      assert (s[length..] + more)[2..] == s[length..][2..] + more;
    }
  }

  lemma {:induction false} ReadExtends(ok: Decoder, s: Bytes, more: Bytes)
    requires ReadResp(ok, s).Done?
    ensures ReadResp(ok, s + more) == Done(ReadResp(ok, s).value, ReadResp(ok, s).rest + more)
    decreases |s|, 0
  {
    var body := s[1..];
    assert (s + more)[1..] == body + more && (s + more)[0] == s[0];
    if s[0] == 43 {
      LineExtends(body, more);
    } else {
      IntExtends(body, more);
      var n, rest := ReadInt(body).value, ReadInt(body).rest;
      if s[0] == 36 {
        BulkExtends(ok, rest, n, more);
      } else if s[0] == 42 && n != -1 {
        ManyExtends(ok, if n < 0 then 0 else n, rest, more);
      }
    }
  }

  lemma {:induction false} ManyExtends(ok: Decoder, count: nat, s: Bytes, more: Bytes)
    requires ReadMany(ok, count, s).Done?
    ensures ReadMany(ok, count, s + more) == Done(ReadMany(ok, count, s).value, ReadMany(ok, count, s).rest + more)
    decreases |s|, 1
  {
    hide ReadResp, ReadCounted, ReadBulk, ReadInt, ReadLine;
    if count > 0 {
      var one, longer := ReadResp(ok, s), ReadResp(ok, s + more);
      FirstOfMany(ok, count, s, one);
      FirstOfMany(ok, count, s + more, longer);
      ReadExtends(ok, s, more);
      ManyExtends(ok, count - 1, one.rest, more);
    }
  }

  // A command cut short anywhere is an error, never a shorter command.
  lemma TruncatedCommandFails(ok: Decoder, parts: seq<Bytes>, k: nat)
    requires k < |Encode(parts)|
    ensures ReadResp(ok, Encode(parts)[..k]).Fail?
  {
    var whole := Encode(parts);
    assert whole[..k] + whole[k..] == whole == whole + [];
    assert |whole[k..]| > 0;
    CommandRoundTrip(ok, parts, []);
    if ReadResp(ok, whole[..k]).Done? {
      ReadExtends(ok, whole[..k], whole[k..]);
    }
  }

  // ---------- the replies no command prints ----------

  // A line that follows the prefix byte, up to its CRLF.
  lemma LineReads(prefix: Byte, line: Bytes, suffix: Bytes)
    requires LF !in line
    ensures ReadLine(([prefix] + line + CRLF + suffix)[1..]) == Done(line, suffix)
  {
    var s := line + CRLF + suffix;
    assert ([prefix] + line + CRLF + suffix)[1..] == s;
    FirstLF(s, |line| + 1);
    assert s[..|line|] == line && s[|line| + 2..] == suffix;
  }

  // A status reads as its text, an error is raised with its text, and either way the line
  // is consumed; a line that is not text is an error of its own.
  lemma LineReplies(ok: Decoder, line: Bytes, suffix: Bytes)
    requires LF !in line
    ensures var status := ReadResp(ok, [43] + line + CRLF + suffix);
            var raised := ReadResp(ok, [45] + line + CRLF + suffix);
            && status == (if ok(line) then Done(Text(line), suffix) else Fail(BadText, suffix))
            && raised == Fail(if ok(line) then ServerError(line) else BadText, suffix)
  {
    LineReads(43, line, suffix);
    LineReads(45, line, suffix);
  }

  // Counts below zero: minus one is nothing at all, for a string and for a list; any other
  // reads an empty list, and never a string.
  lemma NegativeCounts(ok: Decoder, n: int, suffix: Bytes)
    requires n < 0
    ensures n == -1 ==> ReadResp(ok, [36] + Signed(n) + CRLF + suffix) == Done(Nil, suffix)
    ensures n == -1 ==> ReadResp(ok, [42] + Signed(n) + CRLF + suffix) == Done(Nil, suffix)
    ensures n < -1 ==> ReadResp(ok, [42] + Signed(n) + CRLF + suffix) == Done(List([]), suffix)
    ensures n < -1 ==> ReadResp(ok, [36] + Signed(n) + CRLF + suffix) == Fail(MalformedBulk, [])
  {
    HeaderRoundTrip(ok, 36, n, suffix);
    HeaderRoundTrip(ok, 42, n, suffix);
  }

  // A string must be followed by CRLF.
  lemma UnterminatedBulk(ok: Decoder, part: Bytes, after: Bytes)
    requires |after| >= 2 && after[..2] != CRLF
    ensures ReadResp(ok, Header(36, |part|) + part + after) == Fail(MalformedBulk, after[2..])
  {
    var body := part + after;
    assert Header(36, |part|) + part + after == [36] + Signed(|part|) + CRLF + body;
    HeaderRoundTrip(ok, 36, |part|, body);
    assert body[..|part|] == part && body[|part|..] == after;
  }

  // Nothing to read, an unknown prefix, and a line without its CR.
  lemma UnreadableReplies(ok: Decoder, prefix: Byte, rest: Bytes)
    ensures ReadResp(ok, []) == Fail(ConnectionClosed, [])
    ensures prefix !in {36, 42, 43, 45, 58} ==> ReadResp(ok, [prefix] + rest) == Fail(UnknownPrefix(prefix), rest)
    ensures prefix in {36, 42, 43, 45, 58} && rest == [] ==> ReadResp(ok, [prefix] + rest) == Fail(ConnectionClosed, [])
    ensures prefix in {36, 42, 43, 45, 58} && rest != [] && rest[0] == LF ==>
              ReadResp(ok, [prefix] + rest) == Fail(MalformedLine, rest[1..])
  {
    assert ([prefix] + rest)[1..] == rest;
  }

  // ---------- the spellings of an integer ----------

  lemma {:induction false} SpaceBefore(space: Bytes, s: Bytes)
    requires forall b | b in space :: IsSpace(b)
    ensures TrimLeft(space + s) == TrimLeft(s)
  {
    if space == [] {
      assert space + s == s;
    } else {
      assert (space + s)[1..] == space[1..] + s;
      SpaceBefore(space[1..], s);
    }
  }

  lemma {:induction false} SpaceAfter(s: Bytes, space: Bytes)
    requires forall b | b in space :: IsSpace(b)
    ensures TrimRight(s + space) == TrimRight(s)
  {
    if space == [] {
      assert s + space == s;
    } else {
      var n := |space| - 1;
      assert (s + space)[..|s| + n] == s + space[..n];
      SpaceAfter(s, space[..n]);
    }
  }

  lemma TrimsTo(before: Bytes, s: Bytes, after: Bytes)
    requires (forall b | b in before :: IsSpace(b)) && (forall b | b in after :: IsSpace(b))
    requires s != [] && !IsSpace(s[0]) && !IsSpace(s[|s| - 1])
    ensures TrimRight(TrimLeft(before + s + after)) == s
  {
    assert before + s + after == before + (s + after);
    SpaceBefore(before, s + after);
    assert TrimLeft(s + after) == s + after;
    SpaceAfter(s, after);
  }

  lemma SpaceDoesNotCount(before: Bytes, s: Bytes, after: Bytes)
    requires (forall b | b in before :: IsSpace(b)) && (forall b | b in after :: IsSpace(b))
    requires s != [] && !IsSpace(s[0]) && !IsSpace(s[|s| - 1])
    ensures ParseInt(before + s + after) == ParseInt(s)
  {
    TrimsTo(before, s, after);
    TrimsTo([], s, []);
    assert [] + s + [] == s;
  }

  lemma DigitsAreNoSpace(n: nat)
    ensures Digits(n) != [] && !IsSpace(Digits(n)[0]) && !IsSpace(Digits(n)[|Digits(n)| - 1])
  {
    DigitsAreDigits(n);
    assert Digits(n)[0] in Digits(n) && Digits(n)[|Digits(n)| - 1] in Digits(n);
  }

  lemma PlusDoesNotCount(n: nat)
    ensures ParseInt([43] + Digits(n)) == Some(n)
  {
    var s := [43] + Digits(n);
    DigitsAreNoSpace(n);
    assert s[|s| - 1] == Digits(n)[|Digits(n)| - 1] && s[1..] == Digits(n);
    TrimsTo([], s, []);
    assert [] + s + [] == s;
    ParseAfterDigits(n, [], false);
    assert Digits(n) + [] == Digits(n);
  }

  // Space around a number, and a plus sign before it, change nothing.
  lemma IntegerSpellings(n: int, before: Bytes, after: Bytes)
    requires (forall b | b in before :: IsSpace(b)) && (forall b | b in after :: IsSpace(b))
    ensures ParseInt(before + Signed(n) + after) == Some(n)
    ensures n >= 0 ==> ParseInt(before + ([43] + Digits(n)) + after) == Some(n)
  {
    var digits := Digits(if n < 0 then -n else n);
    DigitsAreNoSpace(if n < 0 then -n else n);
    assert Signed(n)[|Signed(n)| - 1] == digits[|digits| - 1];
    IntegerRoundTrip(n);
    SpaceDoesNotCount(before, Signed(n), after);
    if n >= 0 {
      assert ([43] + digits)[|digits|] == digits[|digits| - 1];
      SpaceDoesNotCount(before, [43] + digits, after);
      PlusDoesNotCount(n);
    }
  }

  // What parses as an integer has a digit, and nothing but digits, signs, space and
  // underscores.
  lemma {:induction false} DigitsOnly(s: Bytes, value: nat, afterDigit: bool)
    requires ParseDigits(s, value, afterDigit).Some?
    ensures forall b | b in s :: IsDigit(b) || b == 95
    ensures !afterDigit ==> exists b | b in s :: IsDigit(b)
    decreases s
  {
    if s != [] {
      assert s == [s[0]] + s[1..];
      if IsDigit(s[0]) {
        DigitsOnly(s[1..], 10 * value + (s[0] - 48), true);
        assert s[0] in s;
      } else {
        DigitsOnly(s[1..], value, false);
      }
    }
  }

  // An underscore between digits changes nothing.
  lemma UnderscoresDoNotCount(a: nat, rest: Bytes)
    requires rest != [] && IsDigit(rest[0])
    ensures ParseDigits(Digits(a) + [95] + rest, 0, false) == ParseDigits(Digits(a) + rest, 0, false)
  {
    ParseAfterDigits(a, [95] + rest, false);
    ParseAfterDigits(a, rest, false);
    assert Digits(a) + [95] + rest == Digits(a) + ([95] + rest);
    assert ([95] + rest)[1..] == rest;
  }

  lemma BulkOnTheWire()
    ensures EncodeBulk([71, 69, 84]) == [36, 51, 13, 10, 71, 69, 84, 13, 10]
    ensures EncodeBulk([107, 49]) == [36, 50, 13, 10, 107, 49, 13, 10]
  {
  }

  lemma OnePart(part: Bytes, rest: seq<Bytes>)
    ensures EncodeParts([part] + rest) == EncodeBulk(part) + EncodeParts(rest)
    ensures EncodeParts([]) == []
  {
    assert ([part] + rest)[1..] == rest;
  }

  // GET of "k1" on the wire.
  lemma CommandOnTheWire()
    ensures Encode([[71, 69, 84], [107, 49]])
            == [42, 50, 13, 10] + [36, 51, 13, 10, 71, 69, 84, 13, 10] + [36, 50, 13, 10, 107, 49, 13, 10]
  {
    hide EncodeBulk, EncodeParts;
    var get: Bytes, key: Bytes := [71, 69, 84], [107, 49];
    BulkOnTheWire();
    OnePart(get, [key]);
    OnePart(key, []);
    assert [get] + [key] == [get, key] && [key] + [] == [key];
    assert EncodeBulk(key) + [] == EncodeBulk(key);
    assert Header(42, 2) == [42, 50, 13, 10];
  }
}
