/** Where the CSV text goes: saved to a file, or, in EZP mode, relayed to the
  * requesting extension when it is on the whitelist, to nobody when it is
  * not, and to every whitelisted extension when no requester is recorded. */
module DeliverySelector {
  import opened Wrappers

  /** The outcome of reading the requesting extension's identifier from
    * session storage: a string, `null`, or a rejected read. */
  datatype PeerLookup = Requested(id: string) | NotRequested | LookupFailed

  datatype WithholdReason = NotWhitelisted(id: string) | PeerLookupFailed

  /** The calls the export makes: one `save_file.save`, one `send_file.send`
    * per destination in order, or none at all. */
  datatype Delivery =
    | SaveFile(payload: string, filename: string)
    | Relay(payload: string, destinations: seq<string>)
    | Withheld(reason: WithholdReason)

  const SaveFileName: string := "amazon_order_history.csv"

  /** The whitelist entries that are defined, in whitelist order: the
    * identifiers the broadcast `forEach` sends to. */
  function Defined(whitelist: seq<Option<string>>): (r: seq<string>)
    ensures |r| <= |whitelist|
    ensures (forall i :: 0 <= i < |whitelist| ==> whitelist[i].Some?) ==> |r| == |whitelist|
  {
    if whitelist == [] then []
    else (if whitelist[0].Some? then [whitelist[0].value] else []) + Defined(whitelist[1..])
  }

  /** An identifier is broadcast to exactly when it is a whitelist entry. */
  lemma {:induction false} DefinedMembers(whitelist: seq<Option<string>>)
    ensures forall id :: id in Defined(whitelist) <==> Some(id) in whitelist
  {
    if whitelist != [] {
      DefinedMembers(whitelist[1..]);
      assert whitelist == [whitelist[0]] + whitelist[1..];
    }
  }

  /** The broadcast keeps whitelist order: entries of a prefix are sent to
    * before entries of the rest. */
  lemma {:induction false} DefinedAppend(w1: seq<Option<string>>, w2: seq<Option<string>>)
    ensures Defined(w1 + w2) == Defined(w1) + Defined(w2)
  {
    if w1 != [] {
      assert (w1 + w2)[1..] == w1[1..] + w2;
      DefinedAppend(w1[1..], w2);
    } else {
      assert w1 + w2 == w2;
    }
  }

  /** The delivery decision of lines 89-122. `ezpMode` is the setting as
    * read (absent when `undefined`); a rejected identifier read is caught and
    * nothing is sent. */
  function Deliver(csvFile: string, ezpMode: Option<bool>, peer: PeerLookup,
                   whitelist: seq<Option<string>>): (d: Delivery)
    ensures ezpMode != Some(true) ==> d == SaveFile(csvFile, SaveFileName)
    ensures d.SaveFile? ==> ezpMode != Some(true)
    ensures d.Relay? ==> d.payload == csvFile
    ensures d.Relay? ==> forall id :: id in d.destinations ==> Some(id) in whitelist
    ensures ezpMode == Some(true) && peer.Requested? && Some(peer.id) in whitelist ==>
      d == Relay(csvFile, [peer.id])
    ensures ezpMode == Some(true) && peer.Requested? && Some(peer.id) !in whitelist ==>
      d == Withheld(NotWhitelisted(peer.id))
    ensures ezpMode == Some(true) && peer.NotRequested? ==> d == Relay(csvFile, Defined(whitelist))
    ensures ezpMode == Some(true) && peer.NotRequested? ==>
      d.Relay? && forall id :: id in d.destinations <==> Some(id) in whitelist
    ensures ezpMode == Some(true) && peer.LookupFailed? ==> d == Withheld(PeerLookupFailed)
  {
    if ezpMode == Some(true) then
      match peer
      case Requested(id) =>
        if Some(id) in whitelist then Relay(csvFile, [id]) else Withheld(NotWhitelisted(id))
      case NotRequested =>
        DefinedMembers(whitelist);
        Relay(csvFile, Defined(whitelist))
      case LookupFailed => Withheld(PeerLookupFailed)
    else
      SaveFile(csvFile, SaveFileName)
  }
}
