/** A node: named word arrays behind the wire protocol. */
module Nodes {
  import opened Words
  import opened Bitmaps
  import opened Bytes
  import opened Options
  import opened Wire

  class Node {
    var sets: Sets

    constructor ()
      ensures sets == map[]
    {
      sets := map[];
    }

    // One connection, from its whole input to everything sent back.
    method Handle(input: seq<Byte>) returns (output: seq<Byte>)
      modifies this
      ensures (sets, output) == Serve(old(sets), input)
    {
      var rest := input;
      output := [];
      assert output + Serve(sets, rest).1 == Serve(sets, rest).1;
      while true
        invariant Serve(old(sets), input) == (Serve(sets, rest).0, output + Serve(sets, rest).1)
        decreases |rest|
      {
        var next := ReadMsg(rest);
        if next.Failed? {
          assert output + [] == output;
          return;
        }
        var parsed := Parse(next.payload);
        if parsed.Unknown? {
          assert output + [] == output;
          return;
        }
        if parsed.Known? {
          ServeKnown(sets, rest, output);
          var count := Perform(parsed.request);
          output := output + Reply(count);
        }
        rest := next.rest;
      }
    }

    // The three operations.
    method Perform(r: Request) returns (count: UInt64)
      modifies this
      ensures sets == After(old(sets), r) && count == Answer(old(sets), r)
      ensures r.LoadSet? ==> sets == old(sets)[r.name := r.words] && count == 0
      ensures !r.LoadSet? ==> sets == old(sets)
    {
      match r
      case LoadSet(name, words) =>
        sets := sets[name := words];
        count := 0;
      case AndStored(a, b) =>
        count := CountBoth(Stored(sets, a), Stored(sets, b));
      case AndQuery(name, words) =>
        count := CountBoth(Stored(sets, name), words);
    }
  }

  lemma ServeKnown(sets: Sets, input: seq<Byte>, output: seq<Byte>)
    requires ReadMsg(input).Message? && Parse(ReadMsg(input).payload).Known?
    ensures var r, rest := Parse(ReadMsg(input).payload).request, ReadMsg(input).rest;
            && Serve(sets, input).0 == Serve(After(sets, r), rest).0
            && output + Serve(sets, input).1 ==
               (output + Reply(Answer(sets, r))) + Serve(After(sets, r), rest).1
  {
    var r, rest := Parse(ReadMsg(input).payload).request, ReadMsg(input).rest;
    ServeHead(sets, input, r, rest);
  }

  lemma ServeHead(sets: Sets, input: seq<Byte>, r: Request, rest: seq<Byte>)
    requires ReadMsg(input).Message? && Parse(ReadMsg(input).payload) == Known(r) && rest == ReadMsg(input).rest
    ensures Serve(sets, input) == (Serve(After(sets, r), rest).0, Reply(Answer(sets, r)) + Serve(After(sets, r), rest).1)
  {
  }

  // The counting loop, in 64-bit arithmetic.
  method CountBoth(a: seq<UInt64>, b: seq<UInt64>) returns (c: UInt64)
    ensures c == AndCount(a, b) % WORD_LIMIT
  {
    var m := if |b| < |a| then |b| else |a|;
    c := 0;
    ghost var total: nat := 0;
    assert a[0..] == a && b[0..] == b;
    for i := 0 to m
      invariant total + AndCount(a[i..], b[i..]) == AndCount(a, b)
      invariant c == total % WORD_LIMIT
    {
      var p := PopCount(And(a[i], b[i]));
      assert a[i..][1..] == a[i + 1..] && b[i..][1..] == b[i + 1..];
      AddModulo(total, p);
      c := (c + p) % WORD_LIMIT;
      total := total + p;
    }
  }

  lemma AddModulo(x: nat, y: nat)
    ensures (x % WORD_LIMIT + y) % WORD_LIMIT == (x + y) % WORD_LIMIT
    ensures (x % WORD_LIMIT + y % WORD_LIMIT) % WORD_LIMIT == (x + y) % WORD_LIMIT
  {
  }

  // One request to a node and its reply, as a coordinator sees it: no reply is an error.
  method Call(node: Node, payload: seq<Byte>, ghost r: Request) returns (reply: Option<UInt64>)
    requires payload == Encode(r)
    modifies node
    ensures Sendable(r) ==> reply == Some(Answer(old(node.sets), r)) && node.sets == After(old(node.sets), r)
  {
    ghost var before := node.sets;
    var sent := node.Handle(WriteMsg(payload));
    if Sendable(r) {
      CallAnswered(before, r);
    }
    var received := ReadMsg(sent);
    if received.Failed? || |received.payload| < 8 {
      return None;
    }
    return Some(ReadWord8(received.payload[..8]));
  }

  lemma CallAnswered(sets: Sets, r: Request)
    requires Sendable(r)
    ensures Serve(sets, WriteMsg(Encode(r))) == (After(sets, r), Reply(Answer(sets, r)))
    ensures ReadMsg(Reply(Answer(sets, r))) == Message(Word8(Answer(sets, r)), [])
    ensures Word8(Answer(sets, r))[..8] == Word8(Answer(sets, r))
    ensures ReadWord8(Word8(Answer(sets, r))) == Answer(sets, r)
  {
    var n := Answer(sets, r);
    ServeOne(sets, r, []);
    assert WriteMsg(Encode(r)) + [] == WriteMsg(Encode(r));
    assert Reply(n) + [] == Reply(n);
    MsgRoundTrip(Word8(n), []);
    Word8Read(n);
  }
}
