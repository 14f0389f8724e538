/** CClientCreditsList: the records of all clients together with their identity states. */
module CreditsList {
  import opened Words
  import opened Encoding
  import opened CreditsFile
  import C = ClientCredits

  /** A CClientCredits object: the record that goes into the file, and the credits with their identity state. */
  datatype Entry = Entry(record: CreditStruct, credits: C.Credits)

  type List = map<Hash, Entry>

  function RecordsOf(list: List): map<Hash, CreditStruct> {
    map h | h in list :: list[h].record
  }

  // ----- what happens to a list -----

  /** The constructor for an unknown client. */
  function NewEntry(key: Hash): Entry {
    Entry(CreditStruct(key, 0, 0, 0, 0, 0, seq(MAXPUBKEYSIZE, _ => 0)), C.Credits(0, 0, [], [], C.NotAvailable, 0, 0, 0))
  }

  /** The constructor for a record from the file, whose key is not yet verified in this session. */
  function LoadedEntry(r: CreditStruct): Entry
    requires r.keySize <= MAXPUBKEYSIZE
  {
    var key := r.secureIdent[..r.keySize];
    Entry(r, C.Credits(r.uploaded, r.downloaded, key, key, if r.keySize == 0 then C.NotAvailable else C.IdNeeded, 0, 0, 0))
  }

  function EntriesOf(records: map<Hash, CreditStruct>): List {
    map h | h in records && records[h].keySize <= MAXPUBKEYSIZE :: LoadedEntry(records[h])
  }

  lemma EntriesOfMore(records: map<Hash, CreditStruct>, r: CreditStruct)
    requires r.keySize <= MAXPUBKEYSIZE
    ensures EntriesOf(records[r.key := r]) == EntriesOf(records)[r.key := LoadedEntry(r)]
  {
    hide LoadedEntry;
  }

  /** The key in use goes into the record when it is verified and the record has none; only a key that fits is ever in use. */
  function KeyStored(r: CreditStruct, key: C.Key): CreditStruct {
    if r.keySize == 0 && |key| <= MAXPUBKEYSIZE then r.(keySize := |key|, secureIdent := key + r.secureIdent[|key|..]) else r
  }

  function Happened(e: Entry, event: C.Event): Entry {
    var credits := C.After(e.credits, event);
    var record := if event.Verified? then KeyStored(e.record, e.credits.key) else e.record;
    Entry(record.(uploaded := credits.uploaded, downloaded := credits.downloaded), credits)
  }

  function Seen(e: Entry, now: uint32): Entry {
    e.(record := e.record.(lastSeen := now))
  }

  /** GetCredit; an event of SetSecureIdent, Verified or traffic at one client; a start with a file, whatever it holds. */
  datatype Step = GetCredit(key: Hash, now: uint32) | Happens(key: Hash, event: C.Event) | Start(file: Bytes, now: uint32)

  predicate Enabled(list: List, step: Step) {
    step.Happens? ==> step.key in list && C.Possible(list[step.key].credits, step.event)
  }

  function Next(list: List, step: Step): List {
    match step
    case GetCredit(key, now) => list[key := Seen(if key in list then list[key] else NewEntry(key), now)]
    case Happens(key, event) => if key in list then list[key := Happened(list[key], event)] else list
    case Start(file, now) => EntriesOf(Load(file, now).clients)
  }

  ghost predicate IsRun(lists: seq<List>, steps: seq<Step>) {
    && |lists| == |steps| + 1 && lists[0] == map[]
    && forall k :: 0 <= k < |steps| ==> Enabled(lists[k], steps[k]) && lists[k + 1] == Next(lists[k], steps[k])
  }

  // ----- what holds of every list -----

  /** The record says what the credits say; the stored key is what the record tells, and it fits. */
  predicate Agrees(key: Hash, e: Entry) {
    && e.record.key == key
    && e.record.uploaded == e.credits.uploaded && e.record.downloaded == e.credits.downloaded
    && e.record.keySize == |e.credits.storedKey| <= MAXPUBKEYSIZE
    && e.record.secureIdent[..e.record.keySize] == e.credits.storedKey
    && C.Consistent(e.credits)
  }

  ghost predicate ListOk(list: List) {
    forall h :: h in list ==> Agrees(h, list[h])
  }

  lemma KeyStoredAgrees(key: Hash, e: Entry, ip: uint32)
    requires Agrees(key, e) && C.Possible(e.credits, C.Verified(ip))
    ensures Agrees(key, Happened(e, C.Verified(ip)))
  {
    C.ConsistentStep(e.credits, C.Verified(ip));
    if e.record.keySize == 0 {
      var stored := KeyStored(e.record, e.credits.key);
      assert stored.secureIdent[..stored.keySize] == e.credits.key;
    }
  }

  lemma HappenedAgrees(key: Hash, e: Entry, event: C.Event)
    requires Agrees(key, e) && C.Possible(e.credits, event)
    ensures Agrees(key, Happened(e, event))
  {
    if event.Verified? {
      KeyStoredAgrees(key, e, event.ip);
    } else {
      C.ConsistentStep(e.credits, event);
    }
  }

  lemma LoadedAgrees(records: map<Hash, CreditStruct>)
    requires KeyedByHash(records) && KeysFit(records)
    ensures ListOk(EntriesOf(records)) && RecordsOf(EntriesOf(records)) == records
  {
  }

  /** A start takes the totals and the key of each client from its record; nobody is identified yet. */
  lemma StartTells(list: List, file: Bytes, now: uint32, h: Hash)
    ensures var records, started := Load(file, now).clients, Next(list, Start(file, now));
            && (h in started <==> h in records)
            && (h in records ==>
                  && started[h].record == records[h]
                  && var key := records[h].secureIdent[..records[h].keySize];
                     started[h].credits == C.Credits(records[h].uploaded, records[h].downloaded, key, key,
                                                     if key == [] then C.NotAvailable else C.IdNeeded, 0, 0, 0))
  {
    LoadFits(file, now);
    hide Load;
  }

  /** An event is one of the client's credits: its totals go into the record, the key when it is verified first, and neither
      the time it was seen nor any other client changes. */
  lemma EventTells(list: List, key: Hash, event: C.Event)
    requires ListOk(list) && Enabled(list, Happens(key, event))
    ensures var after := Next(list, Happens(key, event));
            && after.Keys == list.Keys && after - {key} == list - {key}
            && after[key].credits == C.After(list[key].credits, event)
            && after[key].record.lastSeen == list[key].record.lastSeen && after[key].record.reserved == list[key].record.reserved
  {
    hide C.After;
  }

  lemma StepKeepsOk(list: List, step: Step)
    requires ListOk(list) && Enabled(list, step)
    ensures ListOk(Next(list, step))
  {
    match step {
      case GetCredit(key, now) =>
      case Happens(key, event) =>
        HappenedAgrees(key, list[key], event);
      case Start(file, now) =>
        LoadFits(file, now);
        LoadedAgrees(Load(file, now).clients);
    }
  }

  /** Over every run, each record agrees with the identity state, is filed under its hash, and has a key that fits. */
  lemma {:induction false} AlwaysOk(lists: seq<List>, steps: seq<Step>)
    requires IsRun(lists, steps)
    ensures ListOk(lists[|steps|])
    decreases |steps|
  {
    if steps != [] {
      var last := |steps| - 1;
      AlwaysOk(lists[..last + 1], steps[..last]);
      StepKeepsOk(lists[last], steps[last]);
      hide ListOk, Next, Enabled;
    }
  }

  /**
   * Saving a list that any run has led to, and loading the file, is never refused as corrupt: it gives back
   * exactly the clients with traffic that have not expired, field for field.
   */
  lemma LoadOfSaved(lists: seq<List>, steps: seq<Step>, entries: seq<CreditStruct>, now: uint32)
    requires IsRun(lists, steps) && Selects(RecordsOf(lists[|steps|]), entries) && |entries| < TWO32
    ensures var records, expired := RecordsOf(lists[|steps|]), (now - EXPIRY) % TWO32;
            Load(FileOf(|entries|, entries), now)
            == Loaded(map k | k in records && (records[k].uploaded > 0 || records[k].downloaded > 0)
                              && records[k].lastSeen >= expired :: records[k], Complete)
  {
    AlwaysOk(lists, steps);
    var records := RecordsOf(lists[|steps|]);
    assert KeyedByHash(records) && KeysFit(records);
    hide Load, FileOf, Selects, KeyedByHash, KeysFit, IsRun, ListOk;
    LoadOfSelected(records, entries, now);
    var expired := (now - EXPIRY) % TWO32;
    assert (map k | k in records && HasTraffic(records[k]) && records[k].lastSeen >= expired :: records[k])
        == (map k | k in records && (records[k].uploaded > 0 || records[k].downloaded > 0)
                    && records[k].lastSeen >= expired :: records[k]);
  }

  /** A stored key outlives the file: after a start with what was saved, the client has the key it had. */
  lemma StoredKeySurvives(lists: seq<List>, steps: seq<Step>, entries: seq<CreditStruct>, now: uint32, h: Hash)
    requires IsRun(lists, steps) && Selects(RecordsOf(lists[|steps|]), entries) && |entries| < TWO32
    ensures var before, after := lists[|steps|], Next(lists[|steps|], Start(FileOf(|entries|, entries), now));
            h in after ==> h in before && after[h].credits.storedKey == before[h].credits.storedKey
                           && after[h].credits.key == before[h].credits.storedKey
  {
    AlwaysOk(lists, steps);
    LoadOfSaved(lists, steps, entries, now);
    var list := lists[|steps|];
    assert h in list ==> Agrees(h, list[h]);
    hide Load, FileOf, HasTraffic, Selects, IsRun, ListOk;
  }

  class ClientCreditsList {
    var clients: List

    constructor ()
      ensures clients == map[]
    {
      clients := map[];
    }

    /** The records of the clients with traffic, in any order of the map, behind a place kept for their number. */
    method WriteRecords(ghost records: map<Hash, CreditStruct>) returns (file: Bytes, count: nat, ghost entries: seq<CreditStruct>)
      requires records == RecordsOf(clients) && KeyedByHash(records)
      ensures Selects(records, entries) && |entries| == count <= |clients| && file == FileOf(0, entries)
    {
      file := [CREDITFILE_VERSION] + LittleEndian(0, 4);
      entries := [];
      count := 0;
      var left := clients.Keys;
      while left != {}
        invariant left <= clients.Keys && |entries| == count && count + |left| <= |clients.Keys|
        invariant Selects(Without(records, left), entries)
        invariant file == FileOf(0, entries)
        decreases left
      {
        var k :| k in left;
        var record := clients[k].record;
        assert k in records && record == records[k];
        hide *;
        if HasTraffic(record) {
          SelectMore(records, left, entries, k);
          FileMore(entries, record);
          file := file + Encode(record);
          entries := entries + [record];
          count := count + 1;
        } else {
          SelectNone(records, left, entries, k);
        }
        left := left - {k};
      }
      assert records == Without(records, left);
    }

    /** Writes the records, and then their number into the place kept for it at the front. */
    method SaveList() returns (file: Bytes, ghost entries: seq<CreditStruct>)
      requires ListOk(clients) && |clients| < TWO32
      ensures Selects(RecordsOf(clients), entries) && |entries| < TWO32 && file == FileOf(|entries|, entries)
      ensures forall h :: h in clients ==>
                (clients[h].record in entries <==> clients[h].record.uploaded > 0 || clients[h].record.downloaded > 0)
    {
      ghost var records := RecordsOf(clients);
      assert KeyedByHash(records);
      hide ListOk, Agrees, Encode, Selects;
      var count;
      file, count, entries := WriteRecords(records);
      forall h | h in clients
        ensures clients[h].record in entries <==> clients[h].record.uploaded > 0 || clients[h].record.downloaded > 0
      {
        assert records[h] == clients[h].record;
        SelectedHaveTraffic(records, entries, h);
      }
      file := file[..1] + LittleEndian(count, 4) + file[5..];
    }

    /** Reads a file; whatever was read before the file broke off is kept. */
    method LoadList(file: Bytes, now: uint32) returns (outcome: Outcome)
      modifies this
      ensures clients == Next(old(clients), Start(file, now)) && outcome == Load(file, now).outcome
    {
      clients := map[];
      if |file| < 1 {
        return Truncated;
      }
      if file[0] != CREDITFILE_VERSION {
        return Outdated;
      }
      if |file| < 5 {
        return Truncated;
      }
      var body := file[5..];
      var count := Number(file[1..5]);
      var expired: uint32 := (now - EXPIRY) % TWO32;
      var i := 0;
      ghost var records: map<Hash, CreditStruct> := map[];
      while i < count
        invariant 0 <= i <= count
        invariant LoadFrom(body, i, count, expired, records) == Load(file, now)
        invariant clients == EntriesOf(records)
      {
        hide Load, LoadedEntry, Decode, EntriesOf;
        if |body| < RECORD_SIZE * i + RECORD_SIZE {
          return Truncated;
        }
        var r := Decode(body[RECORD_SIZE * i..][..RECORD_SIZE]);
        if r.keySize > MAXPUBKEYSIZE {
          clients := map[];
          return Corrupt;
        }
        if r.lastSeen >= expired {
          EntriesOfMore(records, r);
          clients := clients[r.key := LoadedEntry(r)];
          records := records[r.key := r];
        }
        i := i + 1;
      }
      return Complete;
    }

    /** The entry of a client, made if it is new; asking for it marks it as seen. */
    method GetCredit(key: Hash, now: uint32) returns (e: Entry)
      modifies this
      ensures clients == Next(old(clients), Step.GetCredit(key, now)) && e == clients[key]
      ensures clients - {key} == old(clients) - {key} && e.record.lastSeen == now
      ensures if key in old(clients) then e.record == old(clients)[key].record.(lastSeen := now) && e.credits == old(clients)[key].credits
              else e.record == CreditStruct(key, 0, 0, now, 0, 0, seq(80, _ => 0))
                   && e.credits == C.Credits(0, 0, [], [], C.NotAvailable, 0, 0, 0)
    {
      if key !in clients {
        e := NewEntry(key);
      } else {
        e := clients[key];
      }
      e := Seen(e, now);
      ghost var others := clients - {key};
      clients := clients[key := e];
      assert clients - {key} == others;
    }
  }
}
