/**
 * One poll cycle as a pure fold: the eight reads are issued in a fixed
 * order, and each response line either updates the fields of its own read
 * or is ignored. The cycle ends by marking the client connected.
 */
module PollMerge {
  import opened Optional
  import opened PyText
  import opened Const
  import opened ThermostatState
  import opened Codec

  /**
   * A response is used for read `r` when one arrived, it is not empty and it
   * starts with the read's response prefix.
   */
  predicate Carries(response: Option<string>, r: Read) {
    response.Some? && response.value != [] && StartsWith(response.value, Prefix(r))
  }

  /** The payload of a line: the line with every copy of the read's prefix removed. */
  function Payload(line: string, r: Read): string {
    RemoveAll(line, Prefix(r))
  }

  /** The snapshot after read `r` got `response`. */
  function ApplyResponse(s: DeviceData, r: Read, response: Option<string>): (t: DeviceData)
    ensures OnlySliceChanges(s, t, r)
    ensures !Carries(response, r) ==> t == s
  {
    if Carries(response, r) then Decode(s, r, Payload(response.value, r)) else s
  }

  /** A line that starts with the prefix of another read leaves the snapshot alone. */
  lemma MisroutedResponseIgnored(s: DeviceData, r: Read, other: Read, line: string)
    requires other != r && StartsWith(line, Prefix(other))
    ensures ApplyResponse(s, r, Some(line)) == s
  {
    if StartsWith(line, Prefix(r)) {
      PrefixesUnambiguous(r, other, line);
    }
  }

  /** A line holding only the prefix and the payload decodes that payload. */
  lemma PayloadAfterPrefix(r: Read, payload: string)
    requires !Contains(payload, Prefix(r))
    ensures Payload(Prefix(r) + payload, r) == payload
  {
    RemoveLeading(Prefix(r), payload);
  }

  /** What a response does to the read's own fields depends only on their previous values. */
  lemma ApplyResponseLocal(s: DeviceData, t: DeviceData, r: Read, response: Option<string>)
    requires SliceOf(s, r) == SliceOf(t, r)
    ensures SliceOf(ApplyResponse(s, r, response), r) == SliceOf(ApplyResponse(t, r, response), r)
  {
    if Carries(response, r) {
      DecodeLocal(s, t, r, Payload(response.value, r));
    }
  }

  /** Applies the responses to the reads in order, the i-th response to the i-th read. */
  function MergeReads(s: DeviceData, order: seq<Read>, responses: seq<Option<string>>): (t: DeviceData)
    requires |order| == |responses|
    decreases |order|
  {
    if order == [] then s
    else MergeReads(ApplyResponse(s, order[0], responses[0]), order[1..], responses[1..])
  }

  /** The merge of one more read is one more application. */
  lemma {:induction false} MergeReadsSnoc(s: DeviceData, order: seq<Read>, responses: seq<Option<string>>, r: Read, response: Option<string>)
    requires |order| == |responses|
    ensures MergeReads(s, order + [r], responses + [response])
         == ApplyResponse(MergeReads(s, order, responses), r, response)
    decreases |order|
  {
    if order != [] {
      assert (order + [r])[1..] == order[1..] + [r];
      assert (responses + [response])[1..] == responses[1..] + [response];
      MergeReadsSnoc(ApplyResponse(s, order[0], responses[0]), order[1..], responses[1..], r, response);
    } else {
      assert order + [r] == [r];
      assert responses + [response] == [response];
    }
  }

  /**
   * A poll cycle: the eight responses, in poll order, merged into the
   * snapshot, which then reads as connected with no error, whatever the
   * individual reads returned.
   */
  function Merge(s: State, responses: seq<Option<string>>): (t: State)
    requires |responses| == |PollOrder|
    ensures t.connected && t.lastError == None
  {
    State(MergeReads(s.data, PollOrder, responses), true, None)
  }

  predicate Distinct(order: seq<Read>) {
    forall i, j :: 0 <= i < j < |order| ==> order[i] != order[j]
  }

  /** The fields of a read the sequence does not issue stay as they were. */
  lemma {:induction false} MergeReadsUntouched(s: DeviceData, order: seq<Read>, responses: seq<Option<string>>, r: Read)
    requires |order| == |responses| && r !in order
    ensures SliceOf(MergeReads(s, order, responses), r) == SliceOf(s, r)
    decreases |order|
  {
    if order != [] {
      assert order[0] in order;
      assert forall o :: o in order[1..] ==> o in order;
      OtherSlicesKept(s, ApplyResponse(s, order[0], responses[0]), order[0], r);
      MergeReadsUntouched(ApplyResponse(s, order[0], responses[0]), order[1..], responses[1..], r);
    }
  }

  /**
   * With each read issued once, the fields of the i-th read end up exactly as
   * its own response alone makes them.
   */
  lemma {:induction false} MergeReadsSlice(s: DeviceData, order: seq<Read>, responses: seq<Option<string>>, i: nat)
    requires |order| == |responses| && Distinct(order) && i < |order|
    ensures SliceOf(MergeReads(s, order, responses), order[i])
         == SliceOf(ApplyResponse(s, order[i], responses[i]), order[i])
    decreases |order|
  {
    var s1 := ApplyResponse(s, order[0], responses[0]);
    if i == 0 {
      assert order[0] !in order[1..] by {
        forall k | 0 <= k < |order[1..]| ensures order[1..][k] != order[0] {
          assert order[1..][k] == order[k + 1];
        }
      }
      MergeReadsUntouched(s1, order[1..], responses[1..], order[0]);
    } else {
      assert Distinct(order[1..]) by {
        forall a, b | 0 <= a < b < |order[1..]| ensures order[1..][a] != order[1..][b] {
          assert order[1..][a] == order[a + 1] && order[1..][b] == order[b + 1];
        }
      }
      MergeReadsSlice(s1, order[1..], responses[1..], i - 1);
      assert order[1..][i - 1] == order[i] && responses[1..][i - 1] == responses[i];
      OtherSlicesKept(s, s1, order[0], order[i]);
      ApplyResponseLocal(s1, s, order[i], responses[i]);
    }
  }

  lemma PollOrderDistinct()
    ensures Distinct(PollOrder)
  {
    PollOrderCoversReads();
  }

  /**
   * After a poll cycle, the fields of each of the eight reads are what that
   * read's response alone makes of them: a response carrying the read's
   * prefix decodes into them, any other response leaves them as they were.
   */
  lemma MergeSlices(s: State, responses: seq<Option<string>>, i: nat)
    requires |responses| == |PollOrder| && i < |PollOrder|
    ensures Carries(responses[i], PollOrder[i]) ==>
      SliceOf(Merge(s, responses).data, PollOrder[i])
        == SliceOf(Decode(s.data, PollOrder[i], Payload(responses[i].value, PollOrder[i])), PollOrder[i])
    ensures !Carries(responses[i], PollOrder[i]) ==>
      SliceOf(Merge(s, responses).data, PollOrder[i]) == SliceOf(s.data, PollOrder[i])
  {
    PollOrderDistinct();
    MergeReadsSlice(s.data, PollOrder, responses, i);
  }

  /**
   * A poll cycle in which no response carries its read's prefix (every read
   * timed out, say) keeps all device data and still reports the client as
   * connected with no error.
   */
  lemma MergeNoResponses(s: State, responses: seq<Option<string>>)
    requires |responses| == |PollOrder|
    requires forall i :: 0 <= i < |PollOrder| ==> !Carries(responses[i], PollOrder[i])
    ensures Merge(s, responses).data == s.data
    ensures Merge(s, responses).connected && Merge(s, responses).lastError == None
  {
    var t := Merge(s, responses).data;
    forall r: Read ensures SliceOf(t, r) == SliceOf(s.data, r) {
      PollOrderCoversReads();
      var i :| 0 <= i < |PollOrder| && PollOrder[i] == r;
      MergeSlices(s, responses, i);
    }
    SlicesDetermineState(t, s.data);
  }
}
