/** The reply-chain publisher (`castDailyMessages`).  The publish service
    is an oracle: the k-th call made to it answers `oracle[k]`, a hash on
    success or `None` where `publishCast` swallowed an error and returned
    `undefined`; calls beyond the end of the oracle fail.
 */
module Publisher {
  import opened Wrappers
  import opened AppTypes

  /** One call made to the publish service: the text and the reply anchor. */
  datatype Call = Call(text: string, replyTo: Option<Hash>)

  /** What publishing a thread did: the calls made, in order, and whether
      the chain ended by throwing (dereferencing a failed publish). */
  datatype Thread = Thread(calls: seq<Call>, threw: bool)

  /** `publishCast(msg, replyHash)` passes a reply anchor only when the
      hash is truthy, that is non-empty; the empty default means "root". */
  function ReplyTarget(replyHash: Hash): (r: Option<Hash>)
    ensures r.Some? <==> replyHash != ""
    ensures r.Some? ==> r.value == replyHash
  {
    if replyHash != "" then Some(replyHash) else None
  }

  /** The service's answer to call number `k`. */
  function Answer(oracle: seq<Option<Hash>>, k: nat): Option<Hash>
  {
    if k < |oracle| then oracle[k] else None
  }

  /** The reply loop: `rest` are the messages after the first, `k` the
      number of calls already made and `prev` the hash of the last one.
      Each reply is anchored to the hash just returned; the first failed
      answer throws at `response!.hash` and ends the loop. */
  function Replies(rest: seq<string>, oracle: seq<Option<Hash>>, k: nat, prev: Hash): (t: Thread)
    ensures |t.calls| <= |rest|
    ensures forall j :: 0 <= j < |t.calls| ==> t.calls[j].text == rest[j]
    ensures |t.calls| > 0 ==> t.calls[0].replyTo == ReplyTarget(prev)
    ensures forall j :: 0 < j < |t.calls| ==>
              Answer(oracle, k + j - 1).Some? && t.calls[j].replyTo == ReplyTarget(Answer(oracle, k + j - 1).value)
    ensures forall j :: k <= j < k + |t.calls| - 1 ==> Answer(oracle, j).Some?
    ensures |t.calls| < |rest| ==> t.threw
    ensures t.threw <==> |t.calls| > 0 && Answer(oracle, k + |t.calls| - 1).None?
    decreases |rest|
  {
    if |rest| == 0 then Thread([], false)
    else
      var call := Call(rest[0], ReplyTarget(prev));
      match Answer(oracle, k)
      case None => Thread([call], true)
      case Some(h) =>
        var tail := Replies(rest[1..], oracle, k + 1, h);
        var t := Thread([call] + tail.calls, tail.threw);
        assert forall j :: 0 < j < |t.calls| ==> t.calls[j] == tail.calls[j - 1];
        t
  }

  /** `castDailyMessages`: the first message is published as a root cast;
      when there are more, each is published as a reply to the hash the
      previous publish returned, strictly one after another.
      - calls are made for a prefix of the messages, in order;
      - the first has no reply anchor, call k >= 1 is anchored to the
        answer to call k - 1;
      - every call but the last succeeded, and the chain stops short only
        at a failed answer;
      - it throws exactly when there is more than one message and the last
        call made failed (a lone message's result is never read). */
  function CastDailyMessages(messages: seq<string>, oracle: seq<Option<Hash>>): (t: Thread)
    requires |messages| > 0
    ensures 1 <= |t.calls| <= |messages|
    ensures forall k :: 0 <= k < |t.calls| ==> t.calls[k].text == messages[k]
    ensures t.calls[0].replyTo == None
    ensures forall k :: 1 <= k < |t.calls| ==>
              Answer(oracle, k - 1).Some? && t.calls[k].replyTo == ReplyTarget(Answer(oracle, k - 1).value)
    ensures forall k :: 0 <= k < |t.calls| - 1 ==> Answer(oracle, k).Some?
    ensures |t.calls| < |messages| ==> Answer(oracle, |t.calls| - 1).None?
    ensures t.threw <==> |messages| > 1 && Answer(oracle, |t.calls| - 1).None?
  {
    var first := Call(messages[0], None);
    if |messages| == 1 then Thread([first], false)
    else
      match Answer(oracle, 0)
      case None => Thread([first], true)
      case Some(h) =>
        var replies := Replies(messages[1..], oracle, 1, h);
        var t := Thread([first] + replies.calls, replies.threw);
        assert forall k :: 0 < k < |t.calls| ==> t.calls[k] == replies.calls[k - 1];
        t
  }

  /** When every answer the chain depends on is a hash, one call is made
      per message. */
  lemma AllSucceedPublishesAll(messages: seq<string>, oracle: seq<Option<Hash>>)
    requires |messages| > 0
    requires forall k :: 0 <= k < |messages| - 1 ==> Answer(oracle, k).Some?
    ensures |CastDailyMessages(messages, oracle).calls| == |messages|
  {
  }

  /** Stop on failure: when the first failed answer is to call i and
      there is a later message, exactly i + 1 calls are made, nothing is
      attempted for any later message, and the chain throws. */
  lemma StopsAtFirstFailure(messages: seq<string>, oracle: seq<Option<Hash>>, i: nat)
    requires i < |messages| - 1
    requires forall k :: 0 <= k < i ==> Answer(oracle, k).Some?
    requires Answer(oracle, i).None?
    ensures |CastDailyMessages(messages, oracle).calls| == i + 1
    ensures CastDailyMessages(messages, oracle).threw
  {
  }

  /** The imperative shape of `castDailyMessages`: publish the first
      message, keep the returned hashes in a list, and publish message
      i + 1 as a reply to hash i.  It makes the same calls as the
      functional definition. */
  method CastDailyMessagesLoop(messages: seq<string>, oracle: seq<Option<Hash>>) returns (calls: seq<Call>, threw: bool)
    requires |messages| > 0
    ensures Thread(calls, threw) == CastDailyMessages(messages, oracle)
  {
    calls := [Call(messages[0], None)];
    threw := false;
    if |messages| > 1 {
      var response := Answer(oracle, 0);
      if response.None? {
        threw := true;
        return;
      }
      var hashes: seq<Hash> := [response.value];
      var replies := messages[1..];
      var i := 0;
      while i < |replies|
        invariant 0 <= i <= |replies|
        invariant |hashes| == i + 1 && |calls| == i + 1
        invariant forall j :: 0 <= j <= i ==> Answer(oracle, j) == Some(hashes[j])
        invariant calls[0] == Call(messages[0], None)
        invariant forall j :: 0 <= j < i ==> calls[j + 1] == Call(replies[j], ReplyTarget(hashes[j]))
      {
        calls := calls + [Call(replies[i], ReplyTarget(hashes[i]))];
        var reply := Answer(oracle, i + 1);
        if reply.None? {
          threw := true;
          assert |calls| < |messages| ==> Answer(oracle, |calls| - 1).None?;
          return;
        }
        hashes := hashes + [reply.value];
        i := i + 1;
      }
    }
  }
}
