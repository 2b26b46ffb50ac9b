/**
 * The connected viewers and the first phase of a broadcast: try every client
 * once and collect the ones whose send failed.
 */
module Subscribers {

  /** A viewer's connection; the registry compares connections by identity. */
  class Client {
  }

  /**
   * The delivery pass: visits every client once, in no particular order. A
   * client in `failing` is the one whose send raises; it is queued in
   * `toRemove` (once) and the pass carries on with the rest. Every other
   * client receives the snapshot.
   */
  method CollectFailures(clients: set<Client>, failing: set<Client>)
    returns (toRemove: seq<Client>, delivered: set<Client>)
    ensures forall ws :: ws in toRemove <==> ws in clients && ws in failing
    ensures forall i, j :: 0 <= i < j < |toRemove| ==> toRemove[i] != toRemove[j]
    ensures delivered == clients - failing
  {
    toRemove, delivered := [], {};
    var pending := clients;
    while pending != {}
      invariant pending <= clients
      invariant forall ws :: ws in toRemove <==> ws in clients && ws !in pending && ws in failing
      invariant forall i, j :: 0 <= i < j < |toRemove| ==> toRemove[i] != toRemove[j]
      invariant delivered == (clients - pending) - failing
      decreases pending
    {
      var ws :| ws in pending;
      if ws in failing {
        toRemove := toRemove + [ws];
      } else {
        delivered := delivered + {ws};
      }
      pending := pending - {ws};
    }
  }
}
