/**
 * The receive loop of `run_socket_server` (main.py:85-98): every datagram is
 * normalised and then saved under the current time.  Receiving (the socket,
 * `recvfrom(1024)`) and the clock are not modelled: the datagrams received and
 * the clock reading taken for each one come in as sequences.
 */
module Ingestion {
  import opened Results
  import FormData
  import Timestamps
  import opened Storage

  /** Every clock reading is a value `datetime` can hold. */
  predicate ValidClock(clock: seq<Timestamps.DateTime>) {
    forall i :: 0 <= i < |clock| ==> Timestamps.Valid(clock[i])
  }

  /** What `normalize_data` makes of one datagram. */
  type Outcome = Result<Record, FormData.NormalizeError>

  /** The outcome of normalising each datagram received. */
  function Normalized(datagrams: seq<string>): (r: seq<Outcome>)
    ensures |r| == |datagrams|
    ensures forall i :: 0 <= i < |r| ==> r[i] == FormData.Normalize(datagrams[i])
  {
    seq(|datagrams|, i requires 0 <= i < |datagrams| => FormData.Normalize(datagrams[i]))
  }

  /** The archive key each clock reading yields. */
  function Keys(clock: seq<Timestamps.DateTime>): (r: seq<string>)
    requires ValidClock(clock)
    ensures |r| == |clock|
    ensures forall i :: 0 <= i < |r| ==> r[i] == Timestamps.Format(clock[i])
  {
    seq(|clock|, i requires 0 <= i < |clock| => Timestamps.Format(clock[i]))
  }

  /** The archive after the loop has handled a run of datagrams whose
      normalisations are `outcomes`, the i-th one saved under `keys[i]`.  A
      payload that fails to normalise raises out of the loop (only
      `KeyboardInterrupt` is caught), so nothing after it is archived.  The
      archive only grows: no key it held is lost, and every new key is one
      of the keys the run saved under. */
  function Ingest(doc: Document, outcomes: seq<Outcome>, keys: seq<string>): (r: Document)
    requires |keys| == |outcomes|
    ensures doc.Keys <= r.Keys
    ensures forall k :: k in r && k !in doc ==> k in keys
    decreases |outcomes|
  {
    if outcomes == [] || outcomes[0].Err? then doc
    else Ingest(Insert(doc, keys[0], outcomes[0].value), outcomes[1..], keys[1..])
  }

  /** One pass of the loop body: `normalize_data(data)` and then
      `save_to_json(data_dict)`.  A malformed payload raises before the save,
      so the archive is left as it was. */
  method HandleDatagram(store: Store, payload: string, now: Timestamps.DateTime)
      returns (outcome: Result<Record, FormData.NormalizeError>)
    requires Timestamps.Valid(now)
    modifies store
    ensures outcome == FormData.Normalize(payload)
    ensures outcome.Ok? ==>
      store.document == Insert(old(store.document), Timestamps.Format(now), outcome.value)
    ensures outcome.Err? ==> store.document == old(store.document)
  {
    outcome := FormData.Normalize(payload);
    if outcome.Ok? {
      store.SaveToJson(outcome.value, now);
    }
  }

  /** The `while True` loop over the datagrams received.  It returns how many
      datagrams were archived and, when the loop ended by raising, the error of
      the payload that raised. */
  method RunSocketServer(store: Store, datagrams: seq<string>, clock: seq<Timestamps.DateTime>)
      returns (handled: nat, failure: Option<FormData.NormalizeError>)
    requires |clock| == |datagrams| && ValidClock(clock)
    modifies store
    ensures store.document == Ingest(old(store.document), Normalized(datagrams), Keys(clock))
    ensures handled <= |datagrams|
    ensures forall i :: 0 <= i < handled ==> FormData.Normalize(datagrams[i]).Ok?
    ensures failure.None? <==> handled == |datagrams|
    ensures failure.Some? ==>
      handled < |datagrams| && FormData.Normalize(datagrams[handled]) == Err(failure.value)
  {
    ghost var outcomes, keys := Normalized(datagrams), Keys(clock);
    var i := 0;
    while i < |datagrams|
      invariant 0 <= i <= |datagrams|
      invariant forall j :: 0 <= j < i ==> outcomes[j].Ok?
      invariant Ingest(store.document, outcomes[i..], keys[i..])
             == Ingest(old(store.document), outcomes, keys)
    {
      ghost var before := store.document;
      var outcome := HandleDatagram(store, datagrams[i], clock[i]);
      assert outcome == outcomes[i];
      IngestStep(before, outcomes, keys, i);
      if outcome.Err? {
        return i, Some(outcome.error);
      }
      i := i + 1;
    }
    return |datagrams|, None;
  }

  /** One unfolding of `Ingest` at position `i`: a malformed payload leaves the
      archive as it is, a well-formed one is saved and the run goes on. */
  lemma IngestStep(doc: Document, outcomes: seq<Outcome>, keys: seq<string>, i: nat)
    requires |keys| == |outcomes| && i < |outcomes|
    ensures outcomes[i].Err? ==> Ingest(doc, outcomes[i..], keys[i..]) == doc
    ensures outcomes[i].Ok? ==>
      Ingest(doc, outcomes[i..], keys[i..])
      == Ingest(Insert(doc, keys[i], outcomes[i].value), outcomes[i + 1..], keys[i + 1..])
  {
    assert outcomes[i..][0] == outcomes[i] && keys[i..][0] == keys[i];
    assert outcomes[i..][1..] == outcomes[i + 1..] && keys[i..][1..] == keys[i + 1..];
  }

  /** Datagrams that arrive after a malformed one are never archived: the
      archive is what the datagrams before the first malformed one make it. */
  lemma {:induction false} IngestStopsAtMalformed(
      doc: Document, outcomes: seq<Outcome>, keys: seq<string>, k: nat)
    requires |keys| == |outcomes|
    requires k < |outcomes| && outcomes[k].Err?
    ensures Ingest(doc, outcomes, keys) == Ingest(doc, outcomes[..k], keys[..k])
    decreases k
  {
    if k > 0 && outcomes[0].Ok? {
      IngestStopsAtMalformed(Insert(doc, keys[0], outcomes[0].value), outcomes[1..], keys[1..], k - 1);
      assert outcomes[..k][1..] == outcomes[1..][..k - 1];
      assert keys[..k][1..] == keys[1..][..k - 1];
    }
  }

  /** The saves the loop makes when every datagram is well formed: the i-th
      record under the i-th key. */
  function Saves(outcomes: seq<Outcome>, keys: seq<string>): (r: seq<(string, Record)>)
    requires |keys| == |outcomes|
    requires forall i :: 0 <= i < |outcomes| ==> outcomes[i].Ok?
    ensures |r| == |outcomes|
    ensures forall i :: 0 <= i < |r| ==> r[i] == (keys[i], outcomes[i].value)
  {
    seq(|outcomes|, i requires 0 <= i < |outcomes| => (keys[i], outcomes[i].value))
  }

  /** With only well-formed datagrams, the loop is the sequence of their saves. */
  lemma {:induction false} IngestWellFormed(doc: Document, outcomes: seq<Outcome>, keys: seq<string>)
    requires |keys| == |outcomes|
    requires forall i :: 0 <= i < |outcomes| ==> outcomes[i].Ok?
    ensures Ingest(doc, outcomes, keys) == InsertAll(doc, Saves(outcomes, keys))
    decreases |outcomes|
  {
    if outcomes != [] {
      IngestWellFormed(Insert(doc, keys[0], outcomes[0].value), outcomes[1..], keys[1..]);
      assert Saves(outcomes, keys)[1..] == Saves(outcomes[1..], keys[1..]);
    }
  }

  /** The archive round trip: well-formed datagrams received at distinct
      instants not yet in the archive all end up in it, each under its own
      time key with its normalised record, and nothing archived before is
      lost. */
  lemma {:induction false} ArchiveRoundTrip(doc: Document, datagrams: seq<string>, clock: seq<Timestamps.DateTime>)
    requires |clock| == |datagrams| && ValidClock(clock)
    requires forall i :: 0 <= i < |datagrams| ==> FormData.Normalize(datagrams[i]).Ok?
    requires forall i :: 0 <= i < |clock| ==> Timestamps.Format(clock[i]) !in doc
    requires forall i, j :: 0 <= i < j < |clock| ==> clock[i] != clock[j]
    ensures var r := Ingest(doc, Normalized(datagrams), Keys(clock));
      && |r| == |doc| + |datagrams|
      && (forall k :: k in doc ==> k in r && r[k] == doc[k])
      && (forall i :: 0 <= i < |datagrams| ==>
            Timestamps.Format(clock[i]) in r
            && r[Timestamps.Format(clock[i])] == FormData.Normalize(datagrams[i]).value)
  {
    var outcomes, keys := Normalized(datagrams), Keys(clock);
    var saves := Saves(outcomes, keys);
    forall i, j | 0 <= i < j < |saves| ensures saves[i].0 != saves[j].0 {
      Timestamps.FormatInjective(clock[i], clock[j]);
    }
    InsertAllFresh(doc, saves);
    IngestWellFormed(doc, outcomes, keys);
  }

  /** The listener's whole effect on an archive: the first malformed payload
      among the datagrams ends the loop with the archive as the well-formed
      datagrams before it left it. */
  lemma {:induction false} MalformedPayloadEndsIngestion(
      doc: Document, datagrams: seq<string>, clock: seq<Timestamps.DateTime>, k: nat)
    requires |clock| == |datagrams| && ValidClock(clock)
    requires k < |datagrams| && FormData.Normalize(datagrams[k]).Err?
    ensures Ingest(doc, Normalized(datagrams), Keys(clock))
         == Ingest(doc, Normalized(datagrams[..k]), Keys(clock[..k]))
  {
    var outcomes, keys := Normalized(datagrams), Keys(clock);
    IngestStopsAtMalformed(doc, outcomes, keys, k);
    assert outcomes[..k] == Normalized(datagrams[..k]);
    assert keys[..k] == Keys(clock[..k]);
  }
}
