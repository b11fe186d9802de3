/**
 * The message loop of an advanced node that hands base kinds to its base
 * class by `yield self.env.process(super().run())` (`AdvancedNode.py`,
 * `version1/AdvancedNode.py`, `dht-simulation.py`).  The call starts the
 * base class's own `run` loop on the same mailbox and waits for it; that
 * loop never returns.  So the base-kind message that triggered it, already
 * taken from the mailbox, reaches no branch, and from then on only the base
 * loop takes messages, so the advanced kinds reach no branch either.
 *
 * A mailbox is followed here as the sequence of messages taken from it.
 * `isBase` says which kinds the advanced loop hands down (and the base loop
 * has branches for); `isOwn` says which kinds the advanced loop has a branch
 * of its own for.
 */
module Redispatch {

  /** Which loop takes a node's next message. */
  datatype Loop = OwnLoop | BaseLoop

  /** The taken messages that reach a branch for their kind, in order, as
      the source runs the loops. */
  function ServedAsWritten<M>(mail: seq<M>, isBase: M -> bool, isOwn: M -> bool, loop: Loop): (served: seq<M>)
    ensures |served| <= |mail|
    ensures loop == BaseLoop ==> forall i :: 0 <= i < |served| ==> isBase(served[i])
  {
    if mail == [] then []
    else if loop == BaseLoop then
      (if isBase(mail[0]) then [mail[0]] else []) + ServedAsWritten(mail[1..], isBase, isOwn, BaseLoop)
    else if isBase(mail[0]) then ServedAsWritten(mail[1..], isBase, isOwn, BaseLoop)
    else (if isOwn(mail[0]) then [mail[0]] else []) + ServedAsWritten(mail[1..], isBase, isOwn, OwnLoop)
  }

  /** The taken messages that reach a branch for their kind when every
      message is handled by the branch for its kind, which is how the model
      handles each one. */
  function Served<M>(mail: seq<M>, isBase: M -> bool, isOwn: M -> bool): (served: seq<M>)
    ensures |served| <= |mail|
    ensures forall i :: 0 <= i < |served| ==> isBase(served[i]) || isOwn(served[i])
  {
    if mail == [] then []
    else (if isBase(mail[0]) || isOwn(mail[0]) then [mail[0]] else []) + Served(mail[1..], isBase, isOwn)
  }

  /** Per-message handling serves exactly the messages with a branch. */
  lemma {:induction false} ServedExactly<M>(mail: seq<M>, isBase: M -> bool, isOwn: M -> bool)
    ensures forall m :: m in Served(mail, isBase, isOwn) <==> m in mail && (isBase(m) || isOwn(m))
  {
    if mail != [] {
      ServedExactly(mail[1..], isBase, isOwn);
      assert mail == [mail[0]] + mail[1..];
    }
  }

  /** With no base kind among the messages, the source serves every
      message with a branch, as per-message handling does. */
  lemma {:induction false} NoBaseKindServesAll<M>(mail: seq<M>, isBase: M -> bool, isOwn: M -> bool)
    requires forall i :: 0 <= i < |mail| ==> !isBase(mail[i])
    ensures ServedAsWritten(mail, isBase, isOwn, OwnLoop) == Served(mail, isBase, isOwn)
  {
    if mail != [] {
      NoBaseKindServesAll(mail[1..], isBase, isOwn);
    }
  }

  /** The source never serves more than per-message handling. */
  lemma {:induction false} AsWrittenServesNoMore<M>(mail: seq<M>, isBase: M -> bool, isOwn: M -> bool, loop: Loop)
    ensures |ServedAsWritten(mail, isBase, isOwn, loop)| <= |Served(mail, isBase, isOwn)|
  {
    if mail != [] {
      AsWrittenServesNoMore(mail[1..], isBase, isOwn, BaseLoop);
      AsWrittenServesNoMore(mail[1..], isBase, isOwn, OwnLoop);
    }
  }

  /** With a base kind among the messages, the source serves fewer messages
      than per-message handling: at least the first base-kind message is
      lost. */
  lemma {:induction false} BaseKindLosesOne<M>(mail: seq<M>, isBase: M -> bool, isOwn: M -> bool, i: nat)
    requires i < |mail| && isBase(mail[i])
    ensures |ServedAsWritten(mail, isBase, isOwn, OwnLoop)| < |Served(mail, isBase, isOwn)|
  {
    if isBase(mail[0]) {
      AsWrittenServesNoMore(mail[1..], isBase, isOwn, BaseLoop);
    } else {
      BaseKindLosesOne(mail[1..], isBase, isOwn, i - 1);
    }
  }

  /** The source serves every message with a branch exactly when no base
      kind is among them. */
  lemma AsWrittenMatchesIff<M>(mail: seq<M>, isBase: M -> bool, isOwn: M -> bool)
    ensures ServedAsWritten(mail, isBase, isOwn, OwnLoop) == Served(mail, isBase, isOwn)
      <==> forall i :: 0 <= i < |mail| ==> !isBase(mail[i])
  {
    if forall i :: 0 <= i < |mail| ==> !isBase(mail[i]) {
      NoBaseKindServesAll(mail, isBase, isOwn);
    } else {
      var i :| 0 <= i < |mail| && isBase(mail[i]);
      BaseKindLosesOne(mail, isBase, isOwn, i);
    }
  }
}
