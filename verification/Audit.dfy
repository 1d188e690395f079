/**
  The kernel's audit log: a bounded ring over an unbounded history of attributed
  operations, and the queries made on it.
 */
module Audit {
  import opened Common

  const MAX_AUDIT := 512
  const OP_COUNT := 15


  datatype OpKind = TaskState | TaskKill | TaskSpawn | Send | Recv | MemRead | MemWrite | Revoke | Grant
    | RoleGrant | NetOpen | NetIo | Write | RoleExercise | RoleExpand

  function OpIndex(op: OpKind): nat
  {
    match op
    case TaskState => 0
    case TaskKill => 1
    case TaskSpawn => 2
    case Send => 3
    case Recv => 4
    case MemRead => 5
    case MemWrite => 6
    case Revoke => 7
    case Grant => 8
    case RoleGrant => 9
    case NetOpen => 10
    case NetIo => 11
    case Write => 12
    case RoleExercise => 13
    case RoleExpand => 14
  }

  datatype Record = Record(tick: nat, caller: nat, op: OpKind, target: Option<nat>, ok: bool)

  /** How many records a caller has of one kind. */
  function Count(log: seq<Record>, caller: nat, index: nat): nat
  {
    if log == [] then 0
    else Count(log[..|log| - 1], caller, index) + (if log[|log| - 1].caller == caller && OpIndex(log[|log| - 1].op) == index then 1 else 0)
  }

  predicate Succeeded(r: Record, caller: nat, op: OpKind, target: nat)
  {
    r.caller == caller && r.op == op && r.ok && r.target == Some(target)
  }

  /** The ring index of record `k` of the history, as the queries compute it. */
  lemma RingIndex(n: nat, len: nat, i: nat)
    requires len <= n && len <= MAX_AUDIT && i < len
    ensures (n % MAX_AUDIT + MAX_AUDIT - len + i) % MAX_AUDIT == (n - len + i) % MAX_AUDIT
  {
    var q := n / MAX_AUDIT;
    assert n - len + i + MAX_AUDIT == q * MAX_AUDIT + (n % MAX_AUDIT + MAX_AUDIT - len + i);
    ModTimes(q, n % MAX_AUDIT + MAX_AUDIT - len + i);
    ModTimes(1, n - len + i);
  }

  lemma ModTimes(q: nat, r: nat)
    ensures (q * MAX_AUDIT + r) % MAX_AUDIT == r % MAX_AUDIT
  {}

  /** Some record of `s` is such a success. */
  predicate Ever(s: seq<Record>, caller: nat, op: OpKind, target: nat)
  {
    exists i | 0 <= i < |s| :: Succeeded(s[i], caller, op, target)
  }

  /** What a full ring keeps of a history. */
  function Last(log: seq<Record>): seq<Record> { log[|log| - Min(|log|, MAX_AUDIT)..] }

  /** One success and then other records only. */
  function Forgettable(n: nat, caller: nat, op: OpKind, target: nat): (log: seq<Record>)
    ensures |log| == n
  {
    seq(n, i requires 0 <= i => Record(i, caller, op, Some(target), i == 0))
  }

  /** Behind 512 other records a success is there and the ring no longer knows. */
  lemma RingForgets(n: nat, caller: nat, op: OpKind, target: nat)
    requires n > MAX_AUDIT
    ensures var log := Forgettable(n, caller, op, target); Ever(log, caller, op, target) && !Ever(Last(log), caller, op, target)
  {
    var log := Forgettable(n, caller, op, target);
    assert Succeeded(log[0], caller, op, target);
  }

  /** The ring answers for this whole history, whatever is asked. */
  ghost predicate Answers(log: seq<Record>)
  {
    forall caller: nat, op: OpKind, target: nat :: Ever(Last(log), caller, op, target) <==> Ever(log, caller, op, target)
  }

  /** The ring is sure to answer for all that ever happened exactly while the tick is at most 512. */
  lemma RingAnswersIff(n: nat)
    ensures (forall log: seq<Record> | |log| == n :: Answers(log)) <==> n <= MAX_AUDIT
  {
    if n <= MAX_AUDIT {
      forall log: seq<Record> | |log| == n ensures Answers(log) { assert Last(log) == log; }
    } else {
      RingForgets(n, 0, Send, 0);
      assert !Answers(Forgettable(n, 0, Send, 0));
    }
  }

  class AuditLog {
    var tick: nat
    var head: nat
    var len: nat
    var records: array<Option<Record>>
    ghost var log: seq<Record>   // every record ever made

    /** The ring holds exactly the last min(n, 512) records, and ticks number the history. */
    ghost predicate Valid()
      reads this, records
    {
      && records.Length == MAX_AUDIT
      && tick == |log| && head == |log| % MAX_AUDIT && len == Min(|log|, MAX_AUDIT)
      && (forall k | 0 <= k < |log| :: log[k].tick == k)
      && (forall k | |log| - len <= k < |log| :: records[k % MAX_AUDIT] == Some(log[k]))
    }

    /** What the ring still remembers. */
    ghost function Recent(): (r: seq<Record>)
      requires Valid()
      reads this, records
      ensures |r| == len
    {
      Last(log)
    }

    constructor ()
      ensures Valid() && log == [] && fresh(records)
    {
      tick, head, len, log := 0, 0, 0, [];
      records := new Option<Record>[MAX_AUDIT](_ => None);
    }

    method Append(caller: nat, op: OpKind, target: Option<nat>, ok: bool)
      requires Valid()
      modifies this, records
      ensures Valid() && records == old(records)
      ensures log == old(log) + [Record(|old(log)|, caller, op, target, ok)]
    {
      var r := Record(tick, caller, op, target, ok);
      tick := tick + 1;
      records[head] := Some(r);
      NoClash(|log|);
      head := (head + 1) % MAX_AUDIT;
      len := Min(len + 1, MAX_AUDIT);
      log := log + [r];
      NextHead(|log| - 1);
    }

    /** The record at offset `i` of the ring, oldest first. */
    method At(i: nat) returns (r: Record)
      requires Valid() && i < len
      ensures r == Recent()[i]
    {
      RingIndex(|log|, len, i);
      assert Recent()[i] == log[|log| - len + i];
      assert records[(|log| - len + i) % MAX_AUDIT] == Some(log[|log| - len + i]);
      r := records[(head + MAX_AUDIT - len + i) % MAX_AUDIT].value;
    }

    method OpCounts(caller: nat) returns (counts: seq<nat>)
      requires Valid()
      ensures |counts| == OP_COUNT && forall j | 0 <= j < OP_COUNT :: counts[j] == Count(Recent(), caller, j)
    {
      hide Valid, Recent;
      counts := seq(OP_COUNT, _ => 0);
      for i := 0 to len
        invariant |counts| == OP_COUNT
        invariant forall j | 0 <= j < OP_COUNT :: counts[j] == Count(Recent()[..i], caller, j)
      {
        var r := At(i);
        assert Recent()[..i + 1][..i] == Recent()[..i];
        if r.caller == caller {
          counts := counts[OpIndex(r.op) := counts[OpIndex(r.op)] + 1];
        }
      }
      assert Recent()[..len] == Recent();
    }

    method EverSucceeded(caller: nat, op: OpKind, target: nat) returns (yes: bool)
      requires Valid()
      ensures yes <==> Ever(Recent(), caller, op, target)
      ensures tick <= MAX_AUDIT ==> (yes <==> Ever(log, caller, op, target))
    {
      hide Valid, Recent;
      AllRemembered();
      for i := 0 to len
        invariant forall j | 0 <= j < i :: !Succeeded(Recent()[j], caller, op, target)
      {
        var r := At(i);
        if Succeeded(r, caller, op, target) {
          return true;
        }
      }
      return false;
    }

    lemma AllRemembered()
      requires Valid()
      ensures tick <= MAX_AUDIT ==> Recent() == log
    {
    }

    method RevokeCount(caller: nat) returns (n: nat)
      requires Valid()
      ensures n == Count(Recent(), caller, OpIndex(Revoke))
    {
      hide Valid, Recent;
      n := 0;
      for i := 0 to len
        invariant n == Count(Recent()[..i], caller, OpIndex(Revoke))
      {
        var r := At(i);
        assert Recent()[..i + 1][..i] == Recent()[..i];
        if r.caller == caller && r.op == Revoke {
          n := n + 1;
        }
      }
      assert Recent()[..len] == Recent();
    }
  }

  /** Records less than a ring apart never share a slot. */
  lemma NoClash(n: nat)
    ensures forall k | 0 <= k < n && n - MAX_AUDIT < k :: k % MAX_AUDIT != n % MAX_AUDIT
  {}

  lemma NextHead(n: nat)
    ensures (n % MAX_AUDIT + 1) % MAX_AUDIT == (n + 1) % MAX_AUDIT
  {}
}
