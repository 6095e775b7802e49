/** The exit rule of thread_qs_socket, the loop each pooled multiplexer's
    poller thread runs, stated over the sequence of statuses its polls
    return and the actor totals it reads. */
module Poller {
  import opened Dispatch

  /** The two `break`s of the loop: the poll said stop, or more work is
      pending (or a code was unknown) while no actor is left. */
  predicate ShouldStop(r: int, total: nat)
  {
    r == 0 || (r < 0 && total == 0)
  }

  /** The index of the first poll after which the loop exits, or |codes|
      when it is still running at the end of the observed polls. */
  function FirstStop(codes: seq<int>, totals: seq<nat>): (k: nat)
    requires |codes| == |totals|
    ensures k <= |codes|
    ensures k < |codes| ==> ShouldStop(codes[k], totals[k])
    ensures forall j :: 0 <= j < k ==> !ShouldStop(codes[j], totals[j])
    decreases |codes|
  {
    if |codes| == 0 then 0
    else if ShouldStop(codes[0], totals[0]) then 0
    else 1 + FirstStop(codes[1..], totals[1..])
  }

  /** FirstStop is the only index that passes every earlier poll and stops
      on its own one (or is the end of the observed polls). */
  lemma FirstStopIs(codes: seq<int>, totals: seq<nat>, n: nat)
    requires |codes| == |totals| && n <= |codes|
    requires forall j :: 0 <= j < n ==> !ShouldStop(codes[j], totals[j])
    requires n < |codes| ==> ShouldStop(codes[n], totals[n])
    ensures FirstStop(codes, totals) == n
  {
  }

  /** The exit rule in terms of what the poll did: an exit event always
      stops; an unknown code or a pending backlog stops once no actor is
      left; an idle poll (status 1) never stops the loop, whatever the total. */
  lemma StopRule(a: Action, more: int, total: nat)
    ensures ShouldStop(PollReturn(a, more), total) <==>
            a.Exit? || (total == 0 && (a.Unknown? || more != 0))
    ensures PollReturn(a, more) == 1 ==> !ShouldStop(PollReturn(a, more), total)
  {
  }

  /** Once the actor total reads 0 on a poll that returned a negative status,
      the loop has exited by that poll at the latest. */
  lemma StopsWithinOneCycle(codes: seq<int>, totals: seq<nat>, k: nat)
    requires |codes| == |totals| && k < |codes|
    requires codes[k] < 0 && totals[k] == 0
    ensures FirstStop(codes, totals) <= k
  {
  }

  /** Polls that keep returning 1 never end the loop, even with no actor left. */
  lemma IdleNeverStops(codes: seq<int>, totals: seq<nat>)
    requires |codes| == |totals|
    requires forall i :: 0 <= i < |codes| ==> codes[i] == 1
    ensures FirstStop(codes, totals) == |codes|
  {
  }
}
