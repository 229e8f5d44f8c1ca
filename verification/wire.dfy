/**
  The wire protocol between a coordinator and a node: length-prefixed messages, names,
  the three requests, and what a node answers to a stream of them.
*/
module Wire {
  import opened Words
  import opened Bitmaps
  import opened Bytes
  import opened Options

  const MAX_MSG: nat := 0x4000_0000

  type Name = seq<Byte>
  type Sets = map<Name, seq<UInt64>>

  // ----- messages

  // A message and its length; the length field keeps 32 bits only.
  function WriteMsg(payload: seq<Byte>): seq<Byte>
  {
    BigEndian(|payload| % 0x1_0000_0000, 4) + payload
  }

  datatype Incoming = Failed | Message(payload: seq<Byte>, rest: seq<Byte>)

  function ReadMsg(stream: seq<Byte>): (r: Incoming)
    ensures r.Message? ==> |r.rest| < |stream|
  {
    if |stream| < 4 then Failed
    else
      var n := FromBigEndian(stream[..4]);
      if n > MAX_MSG || |stream| < 4 + n then Failed
      else Message(stream[4..4 + n], stream[4 + n..])
  }

  lemma HeaderRead(payload: seq<Byte>, rest: seq<Byte>)
    ensures FromBigEndian((WriteMsg(payload) + rest)[..4]) == |payload| % 0x1_0000_0000
  {
    Pow256Values();
    BigEndianRead(|payload| % 0x1_0000_0000, 4);
    assert (WriteMsg(payload) + rest)[..4] == BigEndian(|payload| % 0x1_0000_0000, 4);
  }

  lemma ShortMsgRead(payload: seq<Byte>, rest: seq<Byte>)
    requires |payload| <= MAX_MSG
    ensures ReadMsg(WriteMsg(payload) + rest) == Message(payload, rest)
  {
    HeaderRead(payload, rest);
    var stream := WriteMsg(payload) + rest;
    assert stream[4..4 + |payload|] == payload;
    assert stream[4 + |payload|..] == rest;
  }

  // A message is read back, whatever follows it, exactly when it has at most 2^30 bytes.
  lemma MsgRoundTrip(payload: seq<Byte>, rest: seq<Byte>)
    ensures ReadMsg(WriteMsg(payload) + rest) == Message(payload, rest) <==> |payload| <= 0x4000_0000
  {
    HeaderRead(payload, rest);
    if |payload| <= MAX_MSG {
      ShortMsgRead(payload, rest);
    }
  }

  // Conversely a message is found exactly where one of at most 2^30 bytes was written: a
  // truncated or a longer one fails.
  lemma ReadMsgExactly(stream: seq<Byte>, payload: seq<Byte>, rest: seq<Byte>)
    ensures ReadMsg(stream) == Message(payload, rest) <==>
            |payload| <= 0x4000_0000 && stream == WriteMsg(payload) + rest
  {
    if |payload| <= 0x4000_0000 && stream == WriteMsg(payload) + rest {
      ShortMsgRead(payload, rest);
    }
    if ReadMsg(stream) == Message(payload, rest) {
      MessageIsWritten(stream);
    }
  }

  lemma MessageIsWritten(stream: seq<Byte>)
    requires ReadMsg(stream).Message?
    ensures var r := ReadMsg(stream); |r.payload| <= 0x4000_0000 && stream == WriteMsg(r.payload) + r.rest
  {
    var n := FromBigEndian(stream[..4]);
    HeaderWritten(stream[..4], stream[4..4 + n]);
    ThreeParts(stream, n);
  }

  lemma HeaderWritten(header: seq<Byte>, payload: seq<Byte>)
    requires |header| == 4 && FromBigEndian(header) == |payload|
    ensures WriteMsg(payload) == header + payload
  {
    var n := |payload|;
    BigEndianWritten(header);
    WholeLength(n);
    assert n % 0x1_0000_0000 == n;
  }

  lemma WholeLength(n: nat)
    requires n < Pow256(4)
    ensures n < 0x1_0000_0000
  {
    Pow256Values();
  }

  lemma ThreeParts(stream: seq<Byte>, n: nat)
    requires 4 + n <= |stream|
    ensures stream == stream[..4] + stream[4..4 + n] + stream[4 + n..]
  {
  }

  // ----- names

  function WriteName(name: Name): seq<Byte> { LittleEndian(|name| % 0x1_0000, 2) + name }

  function ReadName(b: seq<Byte>): Option<(Name, seq<Byte>)>
  {
    if |b| < 2 then None
    else
      var n := FromLittleEndian(b[..2]);
      if |b| < 2 + n then None else Some((b[2..2 + n], b[2 + n..]))
  }

  // A name is read back, whatever follows it, exactly when its length fits 16 bits.
  lemma NameRoundTrip(name: Name, rest: seq<Byte>)
    ensures ReadName(WriteName(name) + rest) == Some((name, rest)) <==> |name| < 0x1_0000
  {
    Pow256Values();
    LittleEndianRead(|name| % 0x1_0000, 2);
    var b := WriteName(name) + rest;
    assert b[..2] == LittleEndian(|name| % 0x1_0000, 2);
    if |name| < 0x1_0000 {
      assert b[2..2 + |name|] == name;
      assert b[2 + |name|..] == rest;
    }
  }

  // ----- requests

  datatype Request =
    | LoadSet(name: Name, words: seq<UInt64>)
    | AndStored(a: Name, b: Name)
    | AndQuery(name: Name, words: seq<UInt64>)

  function Encode(r: Request): seq<Byte>
  {
    match r
    case LoadSet(name, words) => [0] + WriteName(name) + WordBytes(words)
    case AndStored(a, b) => [1] + WriteName(a) + WriteName(b)
    case AndQuery(name, words) => [2] + WriteName(name) + WordBytes(words)
  }

  datatype Parsed = Ignored | Unknown | Known(request: Request)

  // What a node makes of a message: an empty or truncated one is skipped without a reply,
  // an unknown operation closes the connection.
  function Parse(msg: seq<Byte>): Parsed
  {
    if msg == [] then Ignored
    else if msg[0] == 0 then
      match ReadName(msg[1..])
      case None => Ignored
      case Some((name, rest)) => Known(LoadSet(name, BytesWords(rest)))
    else if msg[0] == 1 then
      match ReadName(msg[1..])
      case None => Ignored
      case Some((a, rest)) =>
        (match ReadName(rest)
         case None => Ignored
         case Some((b, _)) => Known(AndStored(a, b)))
    else if msg[0] == 2 then
      match ReadName(msg[1..])
      case None => Ignored
      case Some((name, rest)) => Known(AndQuery(name, BytesWords(rest)))
    else Unknown
  }

  ghost predicate NamesFit(r: Request)
  {
    match r
    case AndStored(a, b) => |a| < 0x1_0000 && |b| < 0x1_0000
    case _ => |r.name| < 0x1_0000
  }

  lemma ParseEncoded(r: Request)
    requires NamesFit(r)
    ensures Parse(Encode(r)) == Known(r)
  {
    match r
    case AndStored(a, b) => ParseTwoNames(a, b);
    case LoadSet(name, words) => ParseNameAndWords(0, name, words);
    case AndQuery(name, words) => ParseNameAndWords(2, name, words);
  }

  lemma ParseTwoNames(a: Name, b: Name)
    requires |a| < 0x1_0000 && |b| < 0x1_0000
    ensures Parse([1] + WriteName(a) + WriteName(b)) == Known(AndStored(a, b))
  {
    NameRoundTrip(a, WriteName(b));
    NameRoundTrip(b, []);
    assert WriteName(b) + [] == WriteName(b);
    var msg := [1] + WriteName(a) + WriteName(b);
    assert msg[1..] == WriteName(a) + WriteName(b);
    ParseByNames(msg, a, WriteName(b), b, []);
  }

  lemma ParseByNames(msg: seq<Byte>, a: Name, rest: seq<Byte>, b: Name, tail: seq<Byte>)
    requires msg != [] && msg[0] == 1
    requires ReadName(msg[1..]) == Some((a, rest)) && ReadName(rest) == Some((b, tail))
    ensures Parse(msg) == Known(AndStored(a, b))
  {
  }

  lemma ParseNameAndWords(op: Byte, name: Name, words: seq<UInt64>)
    requires |name| < 0x1_0000 && (op == 0 || op == 2)
    ensures Parse([op] + WriteName(name) + WordBytes(words)) ==
            Known(if op == 0 then LoadSet(name, words) else AndQuery(name, words))
  {
    WordBytesRead(words, []);
    assert WordBytes(words) + [] == WordBytes(words);
    ParseNameAndBody(op, name, WordBytes(words));
  }

  lemma ParseNameAndBody(op: Byte, name: Name, body: seq<Byte>)
    requires |name| < 0x1_0000 && (op == 0 || op == 2)
    ensures Parse([op] + WriteName(name) + body) ==
            Known(if op == 0 then LoadSet(name, BytesWords(body)) else AndQuery(name, BytesWords(body)))
  {
    NameRoundTrip(name, body);
    assert ([op] + WriteName(name) + body)[1..] == WriteName(name) + body;
  }

  // Conversely a message is taken for a request exactly when it starts with its encoding, and
  // less than one word follows the words of a load or a query.
  lemma ParsedExactly(msg: seq<Byte>, r: Request)
    ensures Parse(msg) == Known(r) <==>
            NamesFit(r) && Encode(r) <= msg && (r.AndStored? || |msg| < |Encode(r)| + 8)
  {
    if Parse(msg) == Known(r) {
      ParsedIsEncoded(msg, r);
    }
    if NamesFit(r) && Encode(r) <= msg && (r.AndStored? || |msg| < |Encode(r)| + 8) {
      EncodedIsParsed(r, msg[|Encode(r)|..]);
      assert msg == Encode(r) + msg[|Encode(r)|..];
    }
  }

  // A name is found exactly where it was written.
  lemma ReadNameExactly(b: seq<Byte>, name: Name, rest: seq<Byte>)
    ensures ReadName(b) == Some((name, rest)) <==> |name| < 0x1_0000 && b == WriteName(name) + rest
  {
    if |name| < 0x1_0000 && b == WriteName(name) + rest {
      NameRoundTrip(name, rest);
    }
    if ReadName(b) == Some((name, rest)) {
      Pow256Values();
      LittleEndianWritten(b[..2]);
      assert b == b[..2] + b[2..2 + |name|] + b[2 + |name|..];
    }
  }

  lemma ParsedIsEncoded(msg: seq<Byte>, r: Request)
    requires Parse(msg) == Known(r)
    ensures NamesFit(r) && Encode(r) <= msg && (r.AndStored? || |msg| < |Encode(r)| + 8)
  {
    var rest := ReadName(msg[1..]).value.1;
    match r
    case AndStored(a, b) => TwoNamesParsed(msg, a, rest, b, ReadName(rest).value.1);
    case LoadSet(name, words) => NameAndWordsParsed(msg, name, rest);
    case AndQuery(name, words) => NameAndWordsParsed(msg, name, rest);
  }

  lemma NameParsed(msg: seq<Byte>, name: Name, rest: seq<Byte>)
    requires msg != [] && ReadName(msg[1..]) == Some((name, rest))
    ensures |name| < 0x1_0000 && msg == [msg[0]] + WriteName(name) + rest
  {
    ReadNameExactly(msg[1..], name, rest);
    assert msg == [msg[0]] + msg[1..];
  }

  lemma TwoNamesParsed(msg: seq<Byte>, a: Name, rest: seq<Byte>, b: Name, tail: seq<Byte>)
    requires msg != [] && ReadName(msg[1..]) == Some((a, rest)) && ReadName(rest) == Some((b, tail))
    ensures |a| < 0x1_0000 && |b| < 0x1_0000 && [msg[0]] + WriteName(a) + WriteName(b) <= msg
  {
    NameParsed(msg, a, rest);
    ReadNameExactly(rest, b, tail);
    PrefixOfTail([msg[0]] + WriteName(a), WriteName(b), tail);
  }

  lemma PrefixOfTail(head: seq<Byte>, middle: seq<Byte>, tail: seq<Byte>)
    ensures head + middle <= head + (middle + tail)
    ensures |head + (middle + tail)| == |head + middle| + |tail|
  {
  }

  lemma NameAndWordsParsed(msg: seq<Byte>, name: Name, rest: seq<Byte>)
    requires msg != [] && ReadName(msg[1..]) == Some((name, rest))
    ensures var e := [msg[0]] + WriteName(name) + WordBytes(BytesWords(rest));
            |name| < 0x1_0000 && e <= msg && |msg| < |e| + 8
  {
    NameParsed(msg, name, rest);
    WordBytesPrefix(rest);
    var n := 8 * (|rest| / 8);
    assert rest == rest[..n] + rest[n..];
    PrefixOfTail([msg[0]] + WriteName(name), rest[..n], rest[n..]);
  }

  lemma EncodedIsParsed(r: Request, tail: seq<Byte>)
    requires NamesFit(r) && (r.AndStored? || |tail| < 8)
    ensures Parse(Encode(r) + tail) == Known(r)
  {
    match r
    case AndStored(a, b) => TwoNamesAndTail(a, b, tail);
    case LoadSet(name, words) => WordsAndTail(0, name, words, tail);
    case AndQuery(name, words) => WordsAndTail(2, name, words, tail);
  }

  lemma TwoNamesAndTail(a: Name, b: Name, tail: seq<Byte>)
    requires |a| < 0x1_0000 && |b| < 0x1_0000
    ensures Parse([1] + WriteName(a) + WriteName(b) + tail) == Known(AndStored(a, b))
  {
    NameRoundTrip(a, WriteName(b) + tail);
    NameRoundTrip(b, tail);
    AfterFirstByte(1, WriteName(a), WriteName(b), tail);
    ParseByNames([1] + WriteName(a) + WriteName(b) + tail, a, WriteName(b) + tail, b, tail);
  }

  lemma AfterFirstByte(op: Byte, x: seq<Byte>, y: seq<Byte>, tail: seq<Byte>)
    ensures ([op] + x + y + tail)[1..] == x + (y + tail)
  {
  }

  lemma WordsAndTail(op: Byte, name: Name, words: seq<UInt64>, tail: seq<Byte>)
    requires |name| < 0x1_0000 && (op == 0 || op == 2) && |tail| < 8
    ensures Parse([op] + WriteName(name) + WordBytes(words) + tail) ==
            Known(if op == 0 then LoadSet(name, words) else AndQuery(name, words))
  {
    WordBytesRead(words, tail);
    ParseNameAndBody(op, name, WordBytes(words) + tail);
    assert [op] + WriteName(name) + WordBytes(words) + tail == [op] + WriteName(name) + (WordBytes(words) + tail);
  }

  // Only an operation above 2 closes the connection.
  lemma UnknownExactly(msg: seq<Byte>)
    ensures Parse(msg).Unknown? <==> msg != [] && msg[0] > 2
  {
  }

  // The bytes of the three requests and of a message, for small examples.
  lemma LoadSetBytes()
    ensures Encode(LoadSet([0x61], [0x0102])) == [0, 1, 0, 0x61, 2, 1, 0, 0, 0, 0, 0, 0]
  {
    ShortNumbers();
    OneWordBytes();
  }

  lemma AndStoredBytes()
    ensures Encode(AndStored([0x61], [0x62, 0x63])) == [1, 1, 0, 0x61, 2, 0, 0x62, 0x63]
  {
    ShortNumbers();
  }

  lemma AndQueryBytes()
    ensures Encode(AndQuery([0x61], [0x0102])) == [2, 1, 0, 0x61, 2, 1, 0, 0, 0, 0, 0, 0]
  {
    ShortNumbers();
    OneWordBytes();
  }

  lemma MessageBytes(payload: seq<Byte>)
    requires |payload| < 256
    ensures WriteMsg(payload) == [0, 0, 0, |payload|] + payload
  {
    SmallSize(|payload|);
  }

  lemma SmallSize(n: Byte)
    ensures BigEndian(n % 0x1_0000_0000, 4) == [0, 0, 0, n]
  {
    assert BigEndian(0, 3) == [0, 0, 0];
  }

  lemma OneWordBytes()
    ensures WordBytes([0x0102]) == [2, 1, 0, 0, 0, 0, 0, 0]
  {
    ShortNumbers();
    assert [0x0102][1..] == [];
  }

  lemma ShortNumbers()
    ensures LittleEndian(1, 2) == [1, 0] && LittleEndian(2, 2) == [2, 0]
    ensures Word8(0x0102) == [2, 1, 0, 0, 0, 0, 0, 0]
  {
    assert LittleEndian(0, 3) == [0, 0, 0];
    assert LittleEndian(0, 6) == [0, 0, 0] + LittleEndian(0, 3);
    assert LittleEndian(0x0102, 8) == [2] + LittleEndian(1, 7);
    assert LittleEndian(1, 7) == [1] + LittleEndian(0, 6);
  }

  // ----- what a node does with a request

  function Stored(sets: Sets, name: Name): seq<UInt64> { if name in sets then sets[name] else [] }

  function After(sets: Sets, r: Request): Sets
  {
    if r.LoadSet? then sets[r.name := r.words] else sets
  }

  // The count a node answers; a load is acknowledged with zero.
  function Answer(sets: Sets, r: Request): UInt64
  {
    match r
    case LoadSet(_, _) => 0
    case AndStored(a, b) => AndCount(Stored(sets, a), Stored(sets, b)) % WORD_LIMIT
    case AndQuery(name, words) => AndCount(Stored(sets, name), words) % WORD_LIMIT
  }

  function Reply(n: UInt64): seq<Byte> { WriteMsg(Word8(n)) }

  // A connection served to the end of its input: the sets left and the bytes sent.
  function Serve(sets: Sets, input: seq<Byte>): (Sets, seq<Byte>)
    decreases |input|
  {
    match ReadMsg(input)
    case Failed => (sets, [])
    case Message(payload, rest) =>
      (match Parse(payload)
       case Unknown => (sets, [])
       case Ignored => Serve(sets, rest)
       case Known(r) =>
         var (left, sent) := Serve(After(sets, r), rest);
         (left, Reply(Answer(sets, r)) + sent))
  }

  // ----- lockstep

  function Stream(messages: seq<seq<Byte>>): seq<Byte>
  {
    if messages == [] then [] else WriteMsg(messages[0]) + Stream(messages[1..])
  }

  function Encodings(requests: seq<Request>): (m: seq<seq<Byte>>)
    ensures |m| == |requests|
  {
    seq(|requests|, i requires 0 <= i < |requests| => Encode(requests[i]))
  }

  // The sets after the first k requests.
  function StateAfter(sets: Sets, requests: seq<Request>, k: nat): Sets
    requires k <= |requests|
  {
    if k == 0 then sets else After(StateAfter(sets, requests, k - 1), requests[k - 1])
  }

  // One answer per request, each in the state reached by then.
  function Answers(sets: Sets, requests: seq<Request>): (a: seq<UInt64>)
    ensures |a| == |requests|
    ensures forall k :: 0 <= k < |requests| ==> a[k] == Answer(StateAfter(sets, requests, k), requests[k])
  {
    seq(|requests|, k requires 0 <= k < |requests| => Answer(StateAfter(sets, requests, k), requests[k]))
  }

  function Replies(answers: seq<UInt64>): seq<Byte>
  {
    if answers == [] then [] else Reply(answers[0]) + Replies(answers[1..])
  }

  ghost predicate Sendable(r: Request)
  {
    NamesFit(r) && |Encode(r)| <= MAX_MSG
  }

  // Which requests can be sent: names below 65536 bytes, and at most 2^30 bytes in all.
  lemma SendableExactly(r: Request)
    ensures Sendable(r) <==>
            match r
            case AndStored(a, b) => |a| < 0x1_0000 && |b| < 0x1_0000
            case _ => |r.name| < 0x1_0000 && 3 + |r.name| + 8 * |r.words| <= 0x4000_0000
  {
  }

  lemma {:induction false} StateAfterFirst(sets: Sets, requests: seq<Request>, k: nat)
    requires k < |requests|
    ensures StateAfter(sets, requests, k + 1) == StateAfter(After(sets, requests[0]), requests[1..], k)
  {
    if k == 0 {
    } else {
      StateAfterFirst(sets, requests, k - 1);
    }
  }

  // One well-formed request at the head of the input.
  lemma ServeOne(sets: Sets, r: Request, rest: seq<Byte>)
    requires Sendable(r)
    ensures Serve(sets, WriteMsg(Encode(r)) + rest) ==
            (Serve(After(sets, r), rest).0, Reply(Answer(sets, r)) + Serve(After(sets, r), rest).1)
  {
    MsgRoundTrip(Encode(r), rest);
    ParseEncoded(r);
  }

  // A message that is no request is passed over, and an unknown one ends the connection.
  lemma ServeNoRequest(sets: Sets, msg: seq<Byte>, rest: seq<Byte>)
    requires |msg| <= 0x4000_0000
    ensures Parse(msg).Ignored? ==> Serve(sets, WriteMsg(msg) + rest) == Serve(sets, rest)
    ensures Parse(msg).Unknown? ==> Serve(sets, WriteMsg(msg) + rest) == (sets, [])
  {
    MsgRoundTrip(msg, rest);
  }

  // Over a stream of well-formed requests the replies are the answers, in order, and the
  // connection ends in the state after all of them.
  lemma {:induction false} Lockstep(sets: Sets, requests: seq<Request>)
    requires forall k :: 0 <= k < |requests| ==> Sendable(requests[k])
    ensures Serve(sets, Stream(Encodings(requests))) ==
            (StateAfter(sets, requests, |requests|), Replies(Answers(sets, requests)))
    decreases requests
  {
    if requests == [] {
    } else {
      var r, rest := requests[0], requests[1..];
      assert Encodings(requests)[1..] == Encodings(rest);
      ServeOne(sets, r, Stream(Encodings(rest)));
      Lockstep(After(sets, r), rest);
      StateAfterFirst(sets, requests, |rest|);
      AnswersFirst(sets, requests);
    }
  }

  lemma AnswersFirst(sets: Sets, requests: seq<Request>)
    requires requests != []
    ensures Answers(sets, requests) ==
            [Answer(sets, requests[0])] + Answers(After(sets, requests[0]), requests[1..])
  {
    var a, b := Answers(sets, requests), Answers(After(sets, requests[0]), requests[1..]);
    forall k | 0 <= k < |b|
      ensures a[k + 1] == b[k]
    {
      StateAfterFirst(sets, requests, k);
    }
  }

  // The messages a reader finds in a stream.
  function Received(stream: seq<Byte>): seq<seq<Byte>>
    decreases |stream|
  {
    match ReadMsg(stream)
    case Failed => []
    case Message(payload, rest) => [payload] + Received(rest)
  }

  // A reader takes the answers off the reply stream one by one.
  lemma {:induction false} RepliesRead(answers: seq<UInt64>)
    ensures |Received(Replies(answers))| == |answers|
    ensures forall k :: 0 <= k < |answers| ==> Received(Replies(answers))[k] == Word8(answers[k])
  {
    if answers == [] {
    } else {
      MsgRoundTrip(Word8(answers[0]), Replies(answers[1..]));
      RepliesRead(answers[1..]);
    }
  }

  // The answers a node gives to raw messages, until an unknown one closes the connection.
  function AnswersTo(sets: Sets, messages: seq<seq<Byte>>): (a: seq<UInt64>)
    ensures |a| <= |messages|
    decreases messages
  {
    if messages == [] then []
    else
      match Parse(messages[0])
      case Unknown => []
      case Ignored => AnswersTo(sets, messages[1..])
      case Known(r) => [Answer(sets, r)] + AnswersTo(After(sets, r), messages[1..])
  }

  // The sets left after raw messages: only known requests count, up to an unknown message.
  function LeftBy(sets: Sets, messages: seq<seq<Byte>>): Sets
    decreases messages
  {
    if messages == [] then sets
    else
      match Parse(messages[0])
      case Unknown => sets
      case Ignored => LeftBy(sets, messages[1..])
      case Known(r) => LeftBy(After(sets, r), messages[1..])
  }

  lemma {:induction false} ServeMessages(sets: Sets, messages: seq<seq<Byte>>)
    requires forall k :: 0 <= k < |messages| ==> |messages[k]| <= MAX_MSG
    ensures Serve(sets, Stream(messages)) == (LeftBy(sets, messages), Replies(AnswersTo(sets, messages)))
    decreases messages
  {
    if messages == [] {
    } else {
      MsgRoundTrip(messages[0], Stream(messages[1..]));
      match Parse(messages[0])
      case Unknown =>
      case Ignored => ServeMessages(sets, messages[1..]);
      case Known(r) => ServeMessages(After(sets, r), messages[1..]);
    }
  }

  // There is a reply for every message exactly when every message is a known request: one
  // that is skipped or unknown shifts or ends all replies after it.
  lemma {:induction false} OneReplyEach(sets: Sets, messages: seq<seq<Byte>>)
    ensures |AnswersTo(sets, messages)| == |messages| <==>
            forall k :: 0 <= k < |messages| ==> Parse(messages[k]).Known?
    decreases messages
  {
    if messages == [] {
    } else {
      var p := Parse(messages[0]);
      OneReplyEach(if p.Known? then After(sets, p.request) else sets, messages[1..]);
      assert forall k :: 0 <= k < |messages| - 1 ==> messages[1..][k] == messages[k + 1];
      assert forall k :: 1 <= k < |messages| ==> messages[k] == messages[1..][k - 1];
    }
  }
}
