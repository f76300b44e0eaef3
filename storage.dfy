/**
 * The archive `storage/data.json` and the read-modify-write step of
 * `save_to_json` (main.py:67-74).  The file is modelled by the map it holds:
 * loading and dumping it are not modelled, only the update in between.
 */
module Storage {
  import Timestamps

  /** One submission, as `normalize_data` returns it. */
  type Record = map<string, string>

  /** The archive: submission time key -> submission. */
  type Document = map<string, Record>

  /** `existing_data[key] = record`. */
  function Insert(doc: Document, key: string, record: Record): Document {
    doc[key := record]
  }

  /** After an insert the new key holds the record and every other entry is
      kept as it was. */
  lemma InsertKeeps(doc: Document, key: string, record: Record)
    ensures key in Insert(doc, key, record) && Insert(doc, key, record)[key] == record
    ensures forall k :: k in doc && k != key ==>
      k in Insert(doc, key, record) && Insert(doc, key, record)[k] == doc[k]
  {
  }

  /** An insert adds exactly its key: the archive grows by one entry, or
      keeps its size when the key was already there and is overwritten. */
  lemma InsertSize(doc: Document, key: string, record: Record)
    ensures Insert(doc, key, record).Keys == doc.Keys + {key}
    ensures |Insert(doc, key, record)| == if key in doc then |doc| else |doc| + 1
  {
  }

  /** The archive file as the program sees it between two requests. */
  class Store {
    /** What `json.load` reads from the archive file. */
    var document: Document

    constructor (initial: Document)
      ensures document == initial
    {
      document := initial;
    }

    /** `save_to_json(data)` at the instant `now`: load the archive, set the
        entry for the formatted instant, write the archive back. */
    method SaveToJson(data: Record, now: Timestamps.DateTime)
      requires Timestamps.Valid(now)
      modifies this
      ensures document == Insert(old(document), Timestamps.Format(now), data)
    {
      var key := Timestamps.Format(now);
      var existing := document;
      existing := existing[key := data];
      document := existing;
    }
  }

  /** The archive after a sequence of saves, applied in order. */
  function InsertAll(doc: Document, entries: seq<(string, Record)>): Document
    decreases |entries|
  {
    if entries == [] then doc
    else InsertAll(Insert(doc, entries[0].0, entries[0].1), entries[1..])
  }

  /** No two saves share a key and none reuses a key already archived. */
  predicate FreshKeys(doc: Document, entries: seq<(string, Record)>) {
    && (forall i :: 0 <= i < |entries| ==> entries[i].0 !in doc)
    && (forall i, j :: 0 <= i < j < |entries| ==> entries[i].0 != entries[j].0)
  }

  /** Saves under fresh keys lose nothing: every earlier entry survives, every
      saved record can be read back under its key, and the archive grows by
      exactly one entry per save. */
  lemma {:induction false} InsertAllFresh(doc: Document, entries: seq<(string, Record)>)
    requires FreshKeys(doc, entries)
    ensures var r := InsertAll(doc, entries);
      && |r| == |doc| + |entries|
      && (forall k :: k in doc ==> k in r && r[k] == doc[k])
      && (forall i :: 0 <= i < |entries| ==> entries[i].0 in r && r[entries[i].0] == entries[i].1)
    decreases |entries|
  {
    if entries != [] {
      var next := Insert(doc, entries[0].0, entries[0].1);
      var rest := entries[1..];
      assert FreshKeys(next, rest) by {
        forall i | 0 <= i < |rest| ensures rest[i].0 !in next {
          assert rest[i] == entries[i + 1];
        }
        forall i, j | 0 <= i < j < |rest| ensures rest[i].0 != rest[j].0 {
          assert rest[i] == entries[i + 1] && rest[j] == entries[j + 1];
        }
      }
      InsertAllFresh(next, rest);
      var r := InsertAll(doc, entries);
      forall i | 0 <= i < |entries|
        ensures entries[i].0 in r && r[entries[i].0] == entries[i].1
      {
        if i > 0 {
          assert entries[i] == rest[i - 1];
        }
      }
    }
  }

  /** Saving twice under the same key keeps only the later record; the
      earlier one is lost. */
  lemma CollisionOverwrites(doc: Document, key: string, first: Record, second: Record)
    ensures Insert(Insert(doc, key, first), key, second) == Insert(doc, key, second)
    ensures first != second ==> Insert(Insert(doc, key, first), key, second)[key] != first
  {
  }
}
