/**
  The single machine a cluster is measured against: whole word arrays by name, and what it
  answers to a run of loads and counts.
*/
module Machines {
  import opened Words
  import opened Bitmaps
  import opened Wire

  // Whole word arrays by name.
  type Database = map<Name, seq<UInt64>>

  // The first w words of a set; an unknown set is empty.
  function Local(db: Database, w: nat, name: Name): seq<UInt64>
  {
    if name in db && w <= |db[name]| then db[name][..w] else []
  }

  function LocalStored(db: Database, w: nat, a: Name, b: Name): UInt64
  {
    AndCount(Local(db, w, a), Local(db, w, b)) % WORD_LIMIT
  }

  function LocalQuery(db: Database, w: nat, name: Name, query: seq<UInt64>): UInt64
  {
    AndCount(Local(db, w, name), if w <= |query| then query[..w] else []) % WORD_LIMIT
  }

  ghost predicate Wide(db: Database, w: nat)
  {
    forall n :: n in db ==> w <= |db[n]|
  }

  // The positions below n that both arrays have set.
  ghost function CommonBelow(x: seq<UInt64>, y: seq<UInt64>, n: nat): set<nat>
  {
    set p | 0 <= p < n && BitAt(x, p) && BitAt(y, p)
  }

  lemma CountIsCommonBelow(x: seq<UInt64>, y: seq<UInt64>, w: nat)
    requires w <= |x| && w <= |y|
    ensures AndCount(x[..w], y[..w]) == |CommonBelow(x, y, 64 * w)|
  {
    AndCountIsCardinality(x[..w], y[..w]);
    forall p: nat
      ensures p in CommonPositions(x[..w], y[..w]) <==> p in CommonBelow(x, y, 64 * w)
    {
      InSetPositions(x[..w], p);
      InSetPositions(y[..w], p);
    }
    assert CommonPositions(x[..w], y[..w]) == CommonBelow(x, y, 64 * w);
  }

  // The count is the size of the intersection, over the first w words; a set that was never
  // loaded is empty.
  lemma LocalStoredCounts(db: Database, w: nat, a: Name, b: Name)
    requires Wide(db, w)
    ensures LocalStored(db, w, a, b) ==
            (if a in db && b in db then |CommonBelow(db[a], db[b], 64 * w)| else 0) % WORD_LIMIT
  {
    if a in db && b in db {
      CountIsCommonBelow(db[a], db[b], w);
    }
  }

  lemma LocalQueryCounts(db: Database, w: nat, name: Name, query: seq<UInt64>)
    requires Wide(db, w) && w <= |query|
    ensures LocalQuery(db, w, name, query) ==
            (if name in db then |CommonBelow(db[name], query, 64 * w)| else 0) % WORD_LIMIT
  {
    if name in db {
      CountIsCommonBelow(db[name], query, w);
    }
  }

  // ----- whole runs

  datatype Op =
    | Load(name: Name, words: seq<UInt64>)
    | CountStored(a: Name, b: Name)
    | CountQuery(name: Name, words: seq<UInt64>)

  function LocalAfter(db: Database, op: Op): Database
  {
    if op.Load? then db[op.name := op.words] else db
  }

  // What the single machine answers to a run of operations.
  function LocalRun(db: Database, w: nat, ops: seq<Op>): seq<UInt64>
    decreases ops
  {
    if ops == [] then []
    else
      var rest := LocalRun(LocalAfter(db, ops[0]), w, ops[1..]);
      match ops[0]
      case Load(_, _) => rest
      case CountStored(a, b) => [LocalStored(db, w, a, b)] + rest
      case CountQuery(name, query) => [LocalQuery(db, w, name, query)] + rest
  }

  // The database after the first k operations.
  function DatabaseAt(db: Database, ops: seq<Op>, k: nat): Database
    requires k <= |ops|
  {
    if k == 0 then db else LocalAfter(DatabaseAt(db, ops, k - 1), ops[k - 1])
  }

  // The last load of the name among the first k operations; -1 if there is none.
  ghost function LastLoad(ops: seq<Op>, k: nat, name: Name): (j: int)
    requires k <= |ops|
    ensures -1 <= j < k
    ensures j >= 0 ==> ops[j].Load? && ops[j].name == name
    ensures forall i :: j < i < k ==> !(ops[i].Load? && ops[i].name == name)
  {
    if k == 0 then -1
    else if ops[k - 1].Load? && ops[k - 1].name == name then k - 1
    else LastLoad(ops, k - 1, name)
  }

  // A name stands for the words of its last load.
  lemma {:induction false} LastLoadStands(db: Database, ops: seq<Op>, k: nat, name: Name)
    requires k <= |ops|
    ensures var j, now := LastLoad(ops, k, name), DatabaseAt(db, ops, k);
            if j >= 0 then name in now && now[name] == ops[j].words
            else (name in now <==> name in db) && (name in db ==> now[name] == db[name])
  {
    if k == 0 {
    } else {
      LastLoadStands(db, ops, k - 1, name);
    }
  }

  // How many of the first k operations are counts.
  function CountsBefore(ops: seq<Op>, k: nat): (c: nat)
    requires k <= |ops|
    ensures c <= k
  {
    if k == 0 then 0 else CountsBefore(ops, k - 1) + Digit(!ops[k - 1].Load?)
  }

  lemma {:induction false} AfterFirst(db: Database, ops: seq<Op>, k: nat)
    requires k < |ops|
    ensures DatabaseAt(db, ops, k + 1) == DatabaseAt(LocalAfter(db, ops[0]), ops[1..], k)
    ensures CountsBefore(ops, k + 1) == Digit(!ops[0].Load?) + CountsBefore(ops[1..], k)
  {
    if k == 0 {
    } else {
      AfterFirst(db, ops, k - 1);
    }
  }

  // There is one answer per count, given in the database of that moment.
  lemma {:induction false} LocalRunAnswers(db: Database, w: nat, ops: seq<Op>)
    ensures |LocalRun(db, w, ops)| == CountsBefore(ops, |ops|)
    ensures forall k :: 0 <= k < |ops| && !ops[k].Load? ==> AnsweredAt(db, w, ops, k)
    decreases ops
  {
    if ops == [] {
    } else {
      LocalRunAnswers(LocalAfter(db, ops[0]), w, ops[1..]);
      AfterFirst(db, ops, |ops| - 1);
      forall k | 0 <= k < |ops| && !ops[k].Load?
        ensures AnsweredAt(db, w, ops, k)
      {
        LaterAnswer(db, w, ops, k);
      }
    }
  }

  // The answer to operation k.
  ghost predicate AnsweredAt(db: Database, w: nat, ops: seq<Op>, k: nat)
    requires k < |ops| && !ops[k].Load?
  {
    var i, answers, now := CountsBefore(ops, k), LocalRun(db, w, ops), DatabaseAt(db, ops, k);
    && i < |answers|
    && answers[i] == match ops[k]
       case CountStored(a, b) => LocalStored(now, w, a, b)
       case CountQuery(name, query) => LocalQuery(now, w, name, query)
  }

  lemma LaterAnswer(db: Database, w: nat, ops: seq<Op>, k: nat)
    requires k < |ops| && !ops[k].Load?
    requires k > 0 ==> AnsweredAt(LocalAfter(db, ops[0]), w, ops[1..], k - 1)
    ensures AnsweredAt(db, w, ops, k)
  {
    if k > 0 {
      AfterFirst(db, ops, k - 1);
    }
  }

  // The arrays of the operation have the words the cluster slices.
  ghost predicate WideOp(op: Op, w: nat)
  {
    match op
    case Load(_, words) => w <= |words|
    case CountStored(_, _) => true
    case CountQuery(_, query) => w <= |query|
  }

  // ----- names

  // The name was loaded, or no node holds anything under it.  leftover are the names under
  // which nodes may hold words that were not loaded here.
  ghost predicate Settled(db: Database, leftover: set<Name>, n: Name)
  {
    n in db || n !in leftover
  }

  ghost predicate SettledOp(db: Database, leftover: set<Name>, op: Op)
  {
    match op
    case Load(_, _) => true
    case CountStored(a, b) => Settled(db, leftover, a) && Settled(db, leftover, b)
    case CountQuery(name, _) => Settled(db, leftover, name)
  }

  // Every name is settled by the time it is counted.
  ghost predicate Answerable(db: Database, leftover: set<Name>, ops: seq<Op>)
    decreases ops
  {
    ops != [] ==> SettledOp(db, leftover, ops[0]) && Answerable(LocalAfter(db, ops[0]), leftover, ops[1..])
  }
}
