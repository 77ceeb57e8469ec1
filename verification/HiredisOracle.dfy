/**
 * hiredis as the clients see it: every call may fail, and what it returns is decided
 * by the oracle.  Contexts and replies carry identities, so that releasing something
 * twice, or using it after it was released, is a precondition nobody can meet.
 */
module HiredisOracle {
  import opened Wrappers

  datatype Kind = StringReply | ArrayReply | IntegerReply | NilReply | StatusReply | ErrorReply

  datatype Reply = Reply(kind: Kind, str: string, elements: seq<Reply>)

  datatype Command =
    | Auth(password: string)
    | Select(db: int)
    | Subscribe(channel: string)
    | Unsubscribe(channel: string)
    | Ping
    | Set(key: string, value: string)
    | Get(key: string)
    | HSet(hash: string, key: string, value: string)
    | HGet(hash: string, key: string)

  /** NULL, a context whose err is set, or a usable context. */
  datatype ConnectResult = NoContext | Refused | Connected

  /** redisReply*: which reply it is and what it holds. */
  datatype Handle = Handle(id: nat, reply: Reply)

  class Hiredis {
    const connects: nat -> ConnectResult
    const answers: nat -> Option<Reply>
    var attempts: nat
    var issued: nat
    /** contexts and replies handed out and not yet freed */
    var contexts: set<nat>
    var replies: set<nat>
    var nextReply: nat
    /** the commands of each context ever created */
    var log: seq<seq<Command>>
    var buffered: nat

    ghost predicate Valid()
      reads this
    {
      (forall c :: c in contexts ==> c < |log|) && forall r :: r in replies ==> r < nextReply
    }

    constructor (connects: nat -> ConnectResult, answers: nat -> Option<Reply>)
      ensures Valid() && this.connects == connects && this.answers == answers
      ensures contexts == {} && replies == {} && log == [] && attempts == 0
    {
      this.connects := connects;
      this.answers := answers;
      attempts, issued, contexts, replies, nextReply, log, buffered := 0, 0, {}, {}, 0, [], 0;
    }

    /** redisConnectWithTimeout, redisConnectNonBlock */
    method Connect() returns (c: Option<nat>, err: bool)
      requires Valid()
      modifies this`attempts, this`contexts, this`log
      ensures Valid() && attempts == old(attempts) + 1
      ensures var outcome := connects(old(attempts));
        if outcome == NoContext then c == None && contexts == old(contexts) && log == old(log)
        else
          && c == Some(|old(log)|) && contexts == old(contexts) + {|old(log)|} && log == old(log) + [[]]
          && err == (outcome == Refused)
    {
      var outcome := connects(attempts);
      attempts := attempts + 1;
      err := outcome == Refused;
      if outcome == NoContext {
        c := None;
      } else {
        c := Some(|log|);
        contexts := contexts + {|log|};
        log := log + [[]];
      }
    }

    /** redisFree */
    method Free(c: nat)
      requires Valid() && c in contexts
      modifies this`contexts
      ensures Valid() && contexts == old(contexts) - {c}
    {
      contexts := contexts - {c};
    }

    /** redisCommand: the command goes to the context's log; a reply is handed out or not. */
    method Do(c: nat, cmd: Command) returns (r: Option<Handle>)
      requires Valid() && c in contexts
      modifies this`issued, this`replies, this`nextReply, this`log, this`buffered
      ensures Valid() && log == old(log)[c := old(log)[c] + [cmd]] && issued == old(issued) + 1
      ensures var answer := answers(old(issued));
        if answer.None? then r == None && replies == old(replies)
        else
          && r.Some? && r.value.reply == answer.value
          && r.value.id !in old(replies) && replies == old(replies) + {r.value.id}
    {
      var answer := answers(issued);
      issued := issued + 1;
      log := log[c := log[c] + [cmd]];
      buffered := buffered + 1;
      if answer.None? {
        r := None;
      } else {
        r := HandOut(answer.value);
      }
    }

    /** A reply comes into existence. */
    method HandOut(reply: Reply) returns (r: Option<Handle>)
      requires Valid()
      modifies this`replies, this`nextReply
      ensures Valid() && r.Some? && r.value.reply == reply
      ensures r.value.id !in old(replies) && replies == old(replies) + {r.value.id}
    {
      r := Some(Handle(nextReply, reply));
      replies := replies + {nextReply};
      nextReply := nextReply + 1;
    }

    /** freeReplyObject, guarded as in _R_FREE_REPLY_OBJECT */
    method FreeReply(r: Option<Handle>)
      requires Valid() && (r.Some? ==> r.value.id in replies)
      modifies this`replies
      ensures Valid() && replies == old(replies) - (if r.Some? then {r.value.id} else {})
    {
      if r.Some? {
        replies := replies - {r.value.id};
      }
    }

    /** redisBufferWrite: something is written; done when nothing is left. */
    method BufferWrite(c: nat) returns (done: bool)
      requires Valid() && c in contexts
      modifies this`buffered
      ensures Valid() && done == (buffered == 0) && (old(buffered) > 0 ==> buffered < old(buffered))
      ensures old(buffered) == 0 ==> buffered == 0
    {
      if buffered > 0 {
        var left: nat :| left < buffered;
        buffered := left;
      }
      done := buffered == 0;
    }
  }

  /** strncpy into a zeroed buffer of n + 1 bytes keeps at most n characters. */
  function Cut(s: string, n: nat): string {
    if |s| <= n then s else s[..n]
  }
}
