/**
  The point-to-point traffic of the distributed merge sort, as a sequence of
  messages in program order of the sending side. A participant at `level`
  with a helper `h = rank + 2^level` that exists sends `h` the right half of
  its work, recurses on the left half, and later receives the sorted right
  half back from `h`; meanwhile `h` runs the same protocol on that right
  half from its own entry level.
 */
module MessageTrace {
  import opened Topology
  import opened Arith

  datatype Kind = Work | Reply

  /** One message: who sends how many keys to whom. */
  datatype Message = Message(kind: Kind, source: int, dest: int, count: nat)

  /**
    The messages exchanged by the subtree rooted at `rank` sorting `size`
    keys from `level` on, when the highest rank is `maxRank`. The helper
    runs its part from `level + 1`, which is its own entry level
    (`Topology.HelperEntryLevel`).
   */
  function Trace(size: nat, level: nat, rank: int, maxRank: int): seq<Message>
    requires 0 <= rank < Pow2(level)
    decreases maxRank - HelperRank(rank, level)
  {
    var h := HelperRank(rank, level);
    if h > maxRank then []
    else
      var half := size / 2;
      [Message(Work, rank, h, size - half)]
      + Trace(half, level + 1, rank, maxRank)
      + Trace(size - half, level + 1, h, maxRank)
      + [Message(Reply, h, rank, size - half)]
  }

  /** The destinations of the work messages of a trace, in order. */
  function WorkDests(t: seq<Message>): seq<int> {
    if t == [] then []
    else (if t[0].kind == Work then [t[0].dest] else []) + WorkDests(t[1..])
  }

  /** The work messages of a trace, in order. */
  function Works(t: seq<Message>): seq<Message> {
    if t == [] then []
    else (if t[0].kind == Work then [t[0]] else []) + Works(t[1..])
  }

  /** The reply messages of a trace, in order. */
  function Replies(t: seq<Message>): seq<Message> {
    if t == [] then []
    else (if t[0].kind == Reply then [t[0]] else []) + Replies(t[1..])
  }

  /** The reply that answers a work message: same pair, opposite direction, same size. */
  function Answer(m: Message): Message {
    Message(Reply, m.dest, m.source, m.count)
  }

  function AnswerAll(ms: seq<Message>): seq<Message> {
    if ms == [] then [] else [Answer(ms[0])] + AnswerAll(ms[1..])
  }

  /** The helper ranks `1..maxRank`. */
  function HelperRanks(maxRank: int): seq<int>
    decreases maxRank
  {
    if maxRank <= 0 then [] else HelperRanks(maxRank - 1) + [maxRank]
  }

  lemma {:induction false} WorkDestsAppend(a: seq<Message>, b: seq<Message>)
    ensures WorkDests(a + b) == WorkDests(a) + WorkDests(b)
    decreases |a|
  {
    if a != [] {
      assert (a + b)[0] == a[0] && (a + b)[1..] == a[1..] + b;
      WorkDestsAppend(a[1..], b);
    } else {
      assert a + b == b;
    }
  }

  lemma {:induction false} WorksAppend(a: seq<Message>, b: seq<Message>)
    ensures Works(a + b) == Works(a) + Works(b)
    decreases |a|
  {
    if a != [] {
      assert (a + b)[0] == a[0] && (a + b)[1..] == a[1..] + b;
      WorksAppend(a[1..], b);
    } else {
      assert a + b == b;
    }
  }

  lemma {:induction false} RepliesAppend(a: seq<Message>, b: seq<Message>)
    ensures Replies(a + b) == Replies(a) + Replies(b)
    decreases |a|
  {
    if a != [] {
      assert (a + b)[0] == a[0] && (a + b)[1..] == a[1..] + b;
      RepliesAppend(a[1..], b);
    } else {
      assert a + b == b;
    }
  }

  lemma {:induction false} AnswerAllAppend(a: seq<Message>, b: seq<Message>)
    ensures AnswerAll(a + b) == AnswerAll(a) + AnswerAll(b)
    decreases |a|
  {
    if a != [] {
      assert (a + b)[0] == a[0] && (a + b)[1..] == a[1..] + b;
      AnswerAllAppend(a[1..], b);
    } else {
      assert a + b == b;
    }
  }

  /** Each of `1..maxRank` occurs once among the helper ranks, nothing else occurs. */
  lemma {:induction false} HelperRanksCount(maxRank: int, x: int)
    ensures multiset(HelperRanks(maxRank))[x] == if 1 <= x <= maxRank then 1 else 0
    decreases maxRank
  {
    if maxRank > 0 {
      HelperRanksCount(maxRank - 1, x);
    }
  }

  /** One step of the trace: the work message, the two sub-traces, the reply. */
  lemma TraceStep(size: nat, half: nat, rest: nat, level: nat, rank: int, h: int, maxRank: int)
    requires half == size / 2 && rest == size - half
    requires 0 <= rank < Pow2(level)
    requires h == HelperRank(rank, level) && h <= maxRank
    ensures h < Pow2(level + 1)
    ensures Trace(size, level, rank, maxRank)
            == [Message(Work, rank, h, rest)] + Trace(half, level + 1, rank, maxRank)
               + Trace(rest, level + 1, h, maxRank) + [Answer(Message(Work, rank, h, rest))]
  {
  }

  /** How the message filters see one step of the trace. */
  lemma StepWorkDests(w: Message, l: seq<Message>, r: seq<Message>)
    requires w.kind == Work
    ensures WorkDests([w] + l + r + [Answer(w)]) == [w.dest] + WorkDests(l) + WorkDests(r)
  {
    WorkDestsAppend([w] + l + r, [Answer(w)]);
    WorkDestsAppend([w] + l, r);
    WorkDestsAppend([w], l);
  }

  lemma StepWorks(w: Message, l: seq<Message>, r: seq<Message>)
    requires w.kind == Work
    ensures Works([w] + l + r + [Answer(w)]) == [w] + Works(l) + Works(r)
  {
    WorksAppend([w] + l + r, [Answer(w)]);
    WorksAppend([w] + l, r);
    WorksAppend([w], l);
  }

  lemma StepReplies(w: Message, l: seq<Message>, r: seq<Message>)
    requires w.kind == Work
    ensures Replies([w] + l + r + [Answer(w)]) == Replies(l) + Replies(r) + [Answer(w)]
  {
    RepliesAppend([w] + l + r, [Answer(w)]);
    RepliesAppend([w] + l, r);
    RepliesAppend([w], l);
  }

  lemma CountConcat(a: seq<int>, b: seq<int>, c: seq<int>, x: int)
    ensures multiset(a + b + c)[x] == multiset(a)[x] + multiset(b)[x] + multiset(c)[x]
  {
    assert multiset(a + b + c) == multiset(a) + multiset(b) + multiset(c);
  }

  /**
    The ranks above `rank` at distance a multiple of `p` are the helper
    `rank + p` itself, those at an even multiple (the left recursion's), and
    those above the helper at an even multiple from it (the helper's own).
   */
  lemma StepCount(rank: int, p: int, q: int, h: int, maxRank: int, x: int)
    requires p >= 1 && q == 2 * p && h == rank + p && h <= maxRank
    ensures (if x == h then 1 else 0)
            + (if rank < x <= maxRank && (x - rank) % q == 0 then 1 else 0)
            + (if h < x <= maxRank && (x - h) % q == 0 then 1 else 0)
            == if rank < x <= maxRank && (x - rank) % p == 0 then 1 else 0
  {
    var d := x - rank;
    if x == h {
      DivModUnique(d, p, 1, 0);
      DivModUnique(d, q, 0, p);
    } else if rank < x < h {
      DivModUnique(d, p, 0, d);
      DivModUnique(d, q, 0, d);
    } else if h < x <= maxRank {
      SplitResidue(d, p);
    }
  }

  /** The count of `x` in one step of the trace, from the counts in its two sub-traces. */
  lemma CombineCounts(ds: seq<int>, a: seq<int>, b: seq<int>, rank: int, p: int, q: int, h: int, maxRank: int, x: int)
    requires p >= 1 && q == 2 * p && h == rank + p && h <= maxRank
    requires ds == [h] + a + b
    requires multiset(a)[x] == if rank < x <= maxRank && (x - rank) % q == 0 then 1 else 0
    requires multiset(b)[x] == if h < x <= maxRank && (x - h) % q == 0 then 1 else 0
    ensures multiset(ds)[x] == if rank < x <= maxRank && (x - rank) % p == 0 then 1 else 0
  {
    CountConcat([h], a, b, x);
    StepCount(rank, p, q, h, maxRank, x);
  }

  /** Without a helper at this level the subtree sends nothing. */
  lemma SubtreeLeaf(size: nat, level: nat, rank: int, maxRank: int, x: int)
    requires 0 <= rank < Pow2(level)
    requires HelperRank(rank, level) > maxRank
    ensures multiset(WorkDests(Trace(size, level, rank, maxRank)))[x]
            == if rank < x <= maxRank && (x - rank) % Pow2(level) == 0 then 1 else 0
  {
    if rank < x <= maxRank {
      DivModUnique(x - rank, Pow2(level), 0, x - rank);
    }
  }

  /** One step of the count: from the counts of the two sub-traces to the whole. */
  lemma SubtreeStep(size: nat, half: nat, rest: nat, level: nat, rank: int, h: int, maxRank: int, x: int)
    requires half == size / 2 && rest == size - half
    requires 0 <= rank < Pow2(level)
    requires h == HelperRank(rank, level) && h <= maxRank && h < Pow2(level + 1)
    requires multiset(WorkDests(Trace(half, level + 1, rank, maxRank)))[x]
             == if rank < x <= maxRank && (x - rank) % Pow2(level + 1) == 0 then 1 else 0
    requires multiset(WorkDests(Trace(rest, level + 1, h, maxRank)))[x]
             == if h < x <= maxRank && (x - h) % Pow2(level + 1) == 0 then 1 else 0
    ensures multiset(WorkDests(Trace(size, level, rank, maxRank)))[x]
            == if rank < x <= maxRank && (x - rank) % Pow2(level) == 0 then 1 else 0
  {
    TraceStep(size, half, rest, level, rank, h, maxRank);
    var left := Trace(half, level + 1, rank, maxRank);
    var right := Trace(rest, level + 1, h, maxRank);
    StepWorkDests(Message(Work, rank, h, rest), left, right);
    CombineCounts(WorkDests(Trace(size, level, rank, maxRank)), WorkDests(left), WorkDests(right),
                  rank, Pow2(level), Pow2(level + 1), h, maxRank, x);
  }

  /**
    The subtree of `rank` at `level` sends work exactly once to every rank
    above `rank` that differs from it by a multiple of `2^level`, up to
    `maxRank`, and to no one else.
   */
  lemma {:induction false} SubtreeWorkDests(size: nat, level: nat, rank: int, maxRank: int, x: int)
    requires 0 <= rank < Pow2(level)
    ensures multiset(WorkDests(Trace(size, level, rank, maxRank)))[x]
            == if rank < x <= maxRank && (x - rank) % Pow2(level) == 0 then 1 else 0
    decreases maxRank - HelperRank(rank, level)
  {
    var h := HelperRank(rank, level);
    if h > maxRank {
      SubtreeLeaf(size, level, rank, maxRank, x);
    } else {
      assert Pow2(level + 1) == 2 * Pow2(level);
      var half := size / 2;
      var rest: nat := size - half;
      SubtreeWorkDests(half, level + 1, rank, maxRank, x);
      SubtreeWorkDests(rest, level + 1, h, maxRank, x);
      SubtreeStep(size, half, rest, level, rank, h, maxRank, x);
    }
  }

  /**
    The root contacts every other participant exactly once: the work
    messages of the whole run go to the ranks `1..maxRank`, each once.
   */
  lemma RootContactsEachHelperOnce(size: nat, maxRank: int)
    ensures multiset(WorkDests(Trace(size, 0, 0, maxRank))) == multiset(HelperRanks(maxRank))
  {
    forall x
      ensures multiset(WorkDests(Trace(size, 0, 0, maxRank)))[x] == multiset(HelperRanks(maxRank))[x]
    {
      SubtreeWorkDests(size, 0, 0, maxRank, x);
      HelperRanksCount(maxRank, x);
      DivModUnique(x, 1, x, 0);
    }
  }

  /** The reply count of one step, from the counts of its two sub-traces. */
  lemma RepliesStep(size: nat, half: nat, rest: nat, level: nat, rank: int, h: int, maxRank: int)
    requires half == size / 2 && rest == size - half
    requires 0 <= rank < Pow2(level)
    requires h == HelperRank(rank, level) && h <= maxRank && h < Pow2(level + 1)
    requires multiset(Replies(Trace(half, level + 1, rank, maxRank)))
             == multiset(AnswerAll(Works(Trace(half, level + 1, rank, maxRank))))
    requires multiset(Replies(Trace(rest, level + 1, h, maxRank)))
             == multiset(AnswerAll(Works(Trace(rest, level + 1, h, maxRank))))
    ensures multiset(Replies(Trace(size, level, rank, maxRank)))
            == multiset(AnswerAll(Works(Trace(size, level, rank, maxRank))))
  {
    TraceStep(size, half, rest, level, rank, h, maxRank);
    var w := Message(Work, rank, h, rest);
    var left := Trace(half, level + 1, rank, maxRank);
    var right := Trace(rest, level + 1, h, maxRank);
    StepWorks(w, left, right);
    StepReplies(w, left, right);
    AnswerAllAppend([w] + Works(left), Works(right));
    AnswerAllAppend([w], Works(left));
  }

  /** The length of one step, from the lengths of its two sub-traces. */
  lemma LengthStep(size: nat, half: nat, rest: nat, level: nat, rank: int, h: int, maxRank: int)
    requires half == size / 2 && rest == size - half
    requires 0 <= rank < Pow2(level)
    requires h == HelperRank(rank, level) && h <= maxRank && h < Pow2(level + 1)
    requires |Trace(half, level + 1, rank, maxRank)| == 2 * |Works(Trace(half, level + 1, rank, maxRank))|
    requires |Trace(rest, level + 1, h, maxRank)| == 2 * |Works(Trace(rest, level + 1, h, maxRank))|
    ensures |Trace(size, level, rank, maxRank)| == 2 * |Works(Trace(size, level, rank, maxRank))|
  {
    TraceStep(size, half, rest, level, rank, h, maxRank);
    var w := Message(Work, rank, h, rest);
    StepWorks(w, Trace(half, level + 1, rank, maxRank), Trace(rest, level + 1, h, maxRank));
  }

  /**
    Every work message is answered: the replies of a subtree's trace are
    exactly the answers to its work messages, and the trace consists of
    nothing else.
   */
  lemma {:induction false} RepliesAnswerWorks(size: nat, level: nat, rank: int, maxRank: int)
    requires 0 <= rank < Pow2(level)
    ensures multiset(Replies(Trace(size, level, rank, maxRank)))
            == multiset(AnswerAll(Works(Trace(size, level, rank, maxRank))))
    ensures |Trace(size, level, rank, maxRank)| == 2 * |Works(Trace(size, level, rank, maxRank))|
    decreases maxRank - HelperRank(rank, level)
  {
    var h := HelperRank(rank, level);
    if h <= maxRank {
      assert Pow2(level + 1) == 2 * Pow2(level);
      var half := size / 2;
      var rest: nat := size - half;
      RepliesAnswerWorks(half, level + 1, rank, maxRank);
      RepliesAnswerWorks(rest, level + 1, h, maxRank);
      RepliesStep(size, half, rest, level, rank, h, maxRank);
      LengthStep(size, half, rest, level, rank, h, maxRank);
    }
  }

  /** The whole run has `maxRank` work messages and as many replies. */
  lemma TraceLength(size: nat, maxRank: int)
    ensures |Trace(size, 0, 0, maxRank)| == 2 * |HelperRanks(maxRank)|
  {
    RootContactsEachHelperOnce(size, maxRank);
    RepliesAnswerWorks(size, 0, 0, maxRank);
    WorkCount(Trace(size, 0, 0, maxRank));
    assert |WorkDests(Trace(size, 0, 0, maxRank))| == |multiset(HelperRanks(maxRank))|;
  }

  lemma {:induction false} WorkCount(t: seq<Message>)
    ensures |WorkDests(t)| == |Works(t)|
  {
    if t != [] {
      WorkCount(t[1..]);
    }
  }

  /**
    Five keys on two participants: the root sends the three keys of the right
    half (positions 2..4) to rank 1 and receives three sorted keys back.
   */
  lemma TwoParticipantsFiveKeys()
    ensures Trace(5, 0, 0, 1) == [Message(Work, 0, 1, 3), Message(Reply, 1, 0, 3)]
  {
    assert Pow2(1) == 2;
    assert Trace(2, 1, 0, 1) == [];
    assert Pow2(2) == 4;
    assert Trace(3, 1, 1, 1) == [];
  }
}
