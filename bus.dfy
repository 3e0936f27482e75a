/**
 * An abstract two-wire bus standing in for the mbed `I2C` object. The
 * caller scripts the bus's answers in advance; the bus hands them out one
 * per transaction, in order, and records every transaction it answered.
 */
module Bus {
  import opened Bytes

  /** One bus transaction the driver issues: a write of some bytes, or a read of `count` bytes. */
  datatype Txn =
    | Write(addr: int, bytes: seq<Byte>)
    | Read(addr: int, count: nat)

  /**
   * The bus's answer to one transaction: the return code of `i2c.write` or
   * `i2c.read` (zero is success) and, for a read, the bytes delivered.
   */
  datatype Reply = Reply(code: int, data: seq<Byte>)

  /** What a transaction achieved, as the driver sees it. */
  datatype Xfer =
    | Acked(data: seq<Byte>)  // returned 0; for a read, with the bytes read
    | Nacked                  // returned nonzero
    | Unanswered              // the script has no reply left

  /**
   * The outcome of transaction `t` given its reply `r`. A transaction
   * succeeds when its return code is zero; a read that delivers a different
   * number of bytes than it asked for counts as failed.
   */
  function Answer(t: Txn, r: Reply): (x: Xfer)
    ensures x.Acked? <==> r.code == 0 && (t.Read? ==> |r.data| == t.count)
    ensures x.Acked? && t.Read? ==> x.data == r.data
    ensures !x.Unanswered?
  {
    if r.code != 0 then Nacked
    else match t
      case Write(_, _) => Acked([])
      case Read(_, n) => if |r.data| == n then Acked(r.data) else Nacked
  }

  /** The outcome of `t` against the scripted replies `rs`: the first reply answers it. */
  function Respond(t: Txn, rs: seq<Reply>): (x: Xfer)
    ensures x.Unanswered? <==> rs == []
    ensures rs != [] ==> x == Answer(t, rs[0])
  {
    if rs == [] then Unanswered else Answer(t, rs[0])
  }

  /**
   * The bus went from (log0, rs0) to (log1, rs1) by answering exactly the
   * transactions `ts`, in order, one scripted reply each.
   */
  ghost predicate Advanced(log0: seq<Txn>, rs0: seq<Reply>, log1: seq<Txn>, rs1: seq<Reply>, ts: seq<Txn>)
  {
    |ts| <= |rs0| && rs1 == rs0[|ts|..] && log1 == log0 + ts
  }

  /** Answering `t1` and then `t2` is answering `t1 + t2`. */
  lemma AdvancedTwice(log0: seq<Txn>, rs0: seq<Reply>, log1: seq<Txn>, rs1: seq<Reply>, t1: seq<Txn>,
                      log2: seq<Txn>, rs2: seq<Reply>, t2: seq<Txn>)
    requires Advanced(log0, rs0, log1, rs1, t1) && Advanced(log1, rs1, log2, rs2, t2)
    ensures Advanced(log0, rs0, log2, rs2, t1 + t2)
  {
    assert rs0[|t1|..][|t2|..] == rs0[|t1 + t2|..];
    assert (log0 + t1) + t2 == log0 + (t1 + t2);
  }

  class I2C {
    /** Replies still to be handed out. */
    var replies: seq<Reply>
    /** Every transaction answered so far, oldest first. */
    var log: seq<Txn>

    constructor (script: seq<Reply>)
      ensures replies == script && log == []
    {
      replies := script;
      log := [];
    }

    /** Hands the next reply to `t`; with none left, answers nothing and changes nothing. */
    method Transfer(t: Txn) returns (x: Xfer)
      modifies this
      ensures x == Respond(t, old(replies))
      ensures Advanced(old(log), old(replies), log, replies, if x.Unanswered? then [] else [t])
    {
      if replies == [] {
        return Unanswered;
      }
      x := Answer(t, replies[0]);
      replies := replies[1..];
      log := log + [t];
    }

    /** `i2c.write(addr, bytes, |bytes|)`. */
    method Write(addr: int, bytes: seq<Byte>) returns (x: Xfer)
      modifies this
      ensures x == Respond(Txn.Write(addr, bytes), old(replies))
      ensures Advanced(old(log), old(replies), log, replies, if x.Unanswered? then [] else [Txn.Write(addr, bytes)])
    {
      x := Transfer(Txn.Write(addr, bytes));
    }

    /** `i2c.read(addr, buf, count)`. */
    method Read(addr: int, count: nat) returns (x: Xfer)
      modifies this
      ensures x == Respond(Txn.Read(addr, count), old(replies))
      ensures Advanced(old(log), old(replies), log, replies, if x.Unanswered? then [] else [Txn.Read(addr, count)])
    {
      x := Transfer(Txn.Read(addr, count));
    }
  }
}
