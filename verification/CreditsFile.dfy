/** The list of client credits and its file, clients.met. */
module CreditsFile {
  import opened Words
  import opened Encoding
  import ClientCredits

  const CREDITFILE_VERSION: uint8 := 0x12
  const EXPIRY: nat := 12_960_000
  const MAXPUBKEYSIZE: nat := ClientCredits.MAXPUBKEYSIZE
  const RECORD_SIZE: nat := 119

  type Bytes = seq<uint8>
  type Hash = h: Bytes | |h| == 16 witness seq(16, _ => 0)
  type Ident = b: Bytes | |b| == MAXPUBKEYSIZE witness seq(80, _ => 0)

  datatype CreditStruct = CreditStruct(
    key: Hash,
    uploaded: uint64,
    downloaded: uint64,
    lastSeen: uint32,
    reserved: uint16,
    keySize: uint8,
    secureIdent: Ident)

  /** How a load ends. A corrupt file is thrown away as a whole. */
  datatype Outcome = Complete | Outdated | Corrupt | Truncated

  datatype Loaded = Loaded(clients: map<Hash, CreditStruct>, outcome: Outcome)

  // ----- records -----

  function Encode(r: CreditStruct): (b: Bytes)
    ensures |b| == RECORD_SIZE
  {
    r.key + LittleEndian(r.uploaded, 8) + LittleEndian(r.downloaded, 8) + LittleEndian(r.lastSeen, 4)
    + LittleEndian(r.reserved, 2) + [r.keySize] + r.secureIdent
  }

  lemma {:induction false} NumberFits(b: Bytes)
    ensures Number(b) < Limit(|b|)
  {
    if b != [] {
      NumberFits(b[1..]);
    }
  }

  function Decode(b: Bytes): CreditStruct
    requires |b| == RECORD_SIZE
  {
    NumberFits(b[16..24]);
    NumberFits(b[24..32]);
    NumberFits(b[32..36]);
    NumberFits(b[36..38]);
    Limits();
    CreditStruct(b[..16], Number(b[16..24]), Number(b[24..32]), Number(b[32..36]), Number(b[36..38]), b[38], b[39..])
  }

  lemma DecodeEncode(r: CreditStruct)
    ensures Decode(Encode(r)) == r
  {
    var b := Encode(r);
    Limits();
    NumberOfLittleEndian(r.uploaded, 8);
    NumberOfLittleEndian(r.downloaded, 8);
    NumberOfLittleEndian(r.lastSeen, 4);
    NumberOfLittleEndian(r.reserved, 2);
    assert b[..16] == r.key;
    assert b[16..24] == LittleEndian(r.uploaded, 8);
    assert b[24..32] == LittleEndian(r.downloaded, 8);
    assert b[32..36] == LittleEndian(r.lastSeen, 4);
    assert b[36..38] == LittleEndian(r.reserved, 2);
    assert b[38] == r.keySize;
    assert b[39..] == r.secureIdent;
  }

  // ----- the file -----

  function Records(entries: seq<CreditStruct>): (b: Bytes)
    ensures |b| == RECORD_SIZE * |entries|
  {
    if entries == [] then [] else Records(entries[..|entries| - 1]) + Encode(entries[|entries| - 1])
  }

  function FileOf(count: uint32, entries: seq<CreditStruct>): Bytes {
    [CREDITFILE_VERSION] + LittleEndian(count, 4) + Records(entries)
  }

  lemma {:induction false} RecordAt(entries: seq<CreditStruct>, i: nat)
    requires i < |entries|
    ensures RECORD_SIZE * i + RECORD_SIZE <= |Records(entries)|
    ensures Records(entries)[RECORD_SIZE * i..][..RECORD_SIZE] == Encode(entries[i])
    decreases |entries|
  {
    var last := |entries| - 1;
    var before := Records(entries[..last]);
    if i == last {
      assert Records(entries)[RECORD_SIZE * i..] == Encode(entries[i]);
    } else {
      RecordAt(entries[..last], i);
      assert Records(entries)[RECORD_SIZE * i..][..RECORD_SIZE] == before[RECORD_SIZE * i..][..RECORD_SIZE];
    }
  }

  /** Reading `count - i` more records into `clients`. */
  function LoadFrom(body: Bytes, i: nat, count: nat, expired: uint32, clients: map<Hash, CreditStruct>): Loaded
    decreases count - i
  {
    if i >= count then Loaded(clients, Complete)
    else if |body| < RECORD_SIZE * i + RECORD_SIZE then Loaded(clients, Truncated)
    else
      var r := Decode(body[RECORD_SIZE * i..][..RECORD_SIZE]);
      if r.keySize > MAXPUBKEYSIZE then Loaded(map[], Corrupt)
      else if r.lastSeen < expired then LoadFrom(body, i + 1, count, expired, clients)
      else LoadFrom(body, i + 1, count, expired, clients[r.key := r])
  }

  function Load(file: Bytes, now: uint32): Loaded {
    if |file| < 1 then Loaded(map[], Truncated)
    else if file[0] != CREDITFILE_VERSION then Loaded(map[], Outdated)
    else if |file| < 5 then Loaded(map[], Truncated)
    else LoadFrom(file[5..], 0, Number(file[1..5]), (now - EXPIRY) % TWO32, map[])
  }

  ghost predicate Distinct(entries: seq<CreditStruct>) {
    forall i, j :: 0 <= i < j < |entries| ==> entries[i].key != entries[j].key
  }

  /** The entries that a load keeps. */
  ghost predicate Keeps(clients: map<Hash, CreditStruct>, entries: seq<CreditStruct>, expired: uint32) {
    && (forall k :: k in clients ==> exists i :: 0 <= i < |entries| && entries[i] == clients[k] && entries[i].key == k)
    && (forall i :: 0 <= i < |entries| ==>
          (entries[i].lastSeen >= expired <==> entries[i].key in clients)
          && (entries[i].key in clients ==> clients[entries[i].key] == entries[i]))
  }

  lemma KeepsStep(clients: map<Hash, CreditStruct>, entries: seq<CreditStruct>, i: nat, expired: uint32)
    requires i < |entries| && Distinct(entries) && Keeps(clients, entries[..i], expired)
    ensures Keeps(if entries[i].lastSeen < expired then clients else clients[entries[i].key := entries[i]],
                  entries[..i + 1], expired)
  {
    var r := entries[i];
    var more := entries[..i + 1];
    var now := if r.lastSeen < expired then clients else clients[r.key := r];
    assert r.key !in clients;
    forall k | k in now ensures exists j :: 0 <= j < |more| && more[j] == now[k] && more[j].key == k {
      if k == r.key {
        assert more[i] == now[k];
      } else {
        var j :| 0 <= j < i && entries[..i][j] == clients[k] && entries[..i][j].key == k;
        assert more[j] == now[k];
      }
    }
    forall j | 0 <= j < |more|
      ensures (more[j].lastSeen >= expired <==> more[j].key in now) && (more[j].key in now ==> now[more[j].key] == more[j])
    {
      if j < i {
        assert more[j] == entries[..i][j];
      }
    }
  }

  lemma {:induction false} LoadFromRecords(entries: seq<CreditStruct>, i: nat, expired: uint32, clients: map<Hash, CreditStruct>)
    requires i <= |entries| && Distinct(entries)
    requires forall k :: 0 <= k < |entries| ==> entries[k].keySize <= MAXPUBKEYSIZE
    requires Keeps(clients, entries[..i], expired)
    ensures var l := LoadFrom(Records(entries), i, |entries|, expired, clients);
            l.outcome == Complete && Keeps(l.clients, entries, expired)
    decreases |entries| - i
  {
    if i == |entries| {
      assert entries[..i] == entries;
    } else {
      RecordAt(entries, i);
      DecodeEncode(entries[i]);
      KeepsStep(clients, entries, i, expired);
      LoadFromRecords(entries, i + 1, expired,
                      if entries[i].lastSeen < expired then clients else clients[entries[i].key := entries[i]]);
    }
  }

  /** Loading what was written gives back exactly the entries that have not expired. */
  lemma LoadOfFile(entries: seq<CreditStruct>, now: uint32)
    requires |entries| < TWO32 && Distinct(entries)
    requires forall k :: 0 <= k < |entries| ==> entries[k].keySize <= MAXPUBKEYSIZE
    ensures var l := Load(FileOf(|entries|, entries), now);
            l.outcome == Complete && Keeps(l.clients, entries, (now - EXPIRY) % TWO32)
  {
    var file := FileOf(|entries|, entries);
    Limits();
    NumberOfLittleEndian(|entries|, 4);
    assert file[1..5] == LittleEndian(|entries|, 4);
    assert file[5..] == Records(entries);
    LoadFromRecords(entries, 0, (now - EXPIRY) % TWO32, map[]);
  }

  predicate HasTraffic(r: CreditStruct) { r.uploaded != 0 || r.downloaded != 0 }

  function Without(clients: map<Hash, CreditStruct>, left: set<Hash>): map<Hash, CreditStruct> {
    map h | h in clients && h !in left :: clients[h]
  }

  /** `entries` are the clients of the list that have traffic, each once. */
  ghost predicate Selects(clients: map<Hash, CreditStruct>, entries: seq<CreditStruct>) {
    && Distinct(entries)
    && (forall i :: 0 <= i < |entries| ==>
          entries[i].key in clients && clients[entries[i].key] == entries[i] && HasTraffic(entries[i]))
    && (forall k :: k in clients && HasTraffic(clients[k]) ==> clients[k] in entries)
  }

  ghost predicate KeyedByHash(clients: map<Hash, CreditStruct>) {
    forall k :: k in clients ==> clients[k].key == k
  }

  /** A record is written if and only if its client has been sent or has sent something. */
  lemma SelectedHaveTraffic(clients: map<Hash, CreditStruct>, entries: seq<CreditStruct>, h: Hash)
    requires KeyedByHash(clients) && Selects(clients, entries) && h in clients
    ensures clients[h] in entries <==> clients[h].uploaded > 0 || clients[h].downloaded > 0
  {
  }

  /** What a load keeps of the selected entries. */
  lemma KeptIsSelected(clients: map<Hash, CreditStruct>, entries: seq<CreditStruct>, loaded: map<Hash, CreditStruct>, expired: uint32)
    requires KeyedByHash(clients) && Selects(clients, entries) && Keeps(loaded, entries, expired)
    ensures loaded == map k | k in clients && HasTraffic(clients[k]) && clients[k].lastSeen >= expired :: clients[k]
  {
    var kept := map k | k in clients && HasTraffic(clients[k]) && clients[k].lastSeen >= expired :: clients[k];
    forall k | k in kept ensures k in loaded && loaded[k] == kept[k] {
      var i :| 0 <= i < |entries| && entries[i] == clients[k];
      assert entries[i].key == k;
    }
    forall k | k in loaded ensures k in kept {
      var i :| 0 <= i < |entries| && entries[i] == loaded[k] && entries[i].key == k;
      assert entries[i].key in loaded;
    }
  }

  ghost predicate KeysFit(clients: map<Hash, CreditStruct>) {
    forall k :: k in clients ==> clients[k].keySize <= MAXPUBKEYSIZE
  }

  /** Loading saved records gives back exactly those with traffic that have not expired, field for field. */
  lemma LoadOfSelected(clients: map<Hash, CreditStruct>, entries: seq<CreditStruct>, now: uint32)
    requires KeyedByHash(clients) && KeysFit(clients) && Selects(clients, entries) && |entries| < TWO32
    ensures var expired := (now - EXPIRY) % TWO32;
            Load(FileOf(|entries|, entries), now)
            == Loaded(map k | k in clients && HasTraffic(clients[k]) && clients[k].lastSeen >= expired :: clients[k], Complete)
  {
    hide Load, FileOf, HasTraffic, Keeps;
    LoadOfFile(entries, now);
    KeptIsSelected(clients, entries, Load(FileOf(|entries|, entries), now).clients, (now - EXPIRY) % TWO32);
  }

  /** Whatever the file, what a load keeps is filed by hash and has keys that fit. */
  lemma {:induction false} LoadedFits(body: Bytes, i: nat, count: nat, expired: uint32, clients: map<Hash, CreditStruct>)
    requires KeyedByHash(clients) && KeysFit(clients)
    ensures var l := LoadFrom(body, i, count, expired, clients);
            KeyedByHash(l.clients) && KeysFit(l.clients)
    decreases count - i
  {
    if i < count && |body| >= RECORD_SIZE * i + RECORD_SIZE {
      var r := Decode(body[RECORD_SIZE * i..][..RECORD_SIZE]);
      if r.keySize <= MAXPUBKEYSIZE {
        LoadedFits(body, i + 1, count, expired, if r.lastSeen < expired then clients else clients[r.key := r]);
      }
    }
  }

  lemma LoadFits(file: Bytes, now: uint32)
    ensures KeyedByHash(Load(file, now).clients) && KeysFit(Load(file, now).clients)
  {
    if |file| >= 5 {
      LoadedFits(file[5..], 0, Number(file[1..5]), (now - EXPIRY) % TWO32, map[]);
    }
  }

  // ----- any file -----

  /** The place of the fields in a record, and of the records in the file. */
  lemma Layout(r: CreditStruct, count: uint32, entries: seq<CreditStruct>, i: nat)
    ensures var b := Encode(r);
            && b[..16] == r.key && b[16..24] == LittleEndian(r.uploaded, 8) && b[24..32] == LittleEndian(r.downloaded, 8)
            && b[32..36] == LittleEndian(r.lastSeen, 4) && b[36..38] == LittleEndian(r.reserved, 2)
            && b[38] == r.keySize && b[39..] == r.secureIdent && |b| == 119
    ensures var file := FileOf(count, entries);
            && file[..5] == [0x12] + LittleEndian(count, 4) && |file| == 5 + 119 * |entries|
            && (i < |entries| ==> file[5 + 119 * i..][..119] == Encode(entries[i]))
  {
    var file := FileOf(count, entries);
    assert file[5..] == Records(entries);
    hide Encode, Records, LittleEndian;
    if i < |entries| {
      RecordAt(entries, i);
      assert file[5 + 119 * i..] == file[5..][119 * i..];
    }
  }

  function RecordIn(body: Bytes, i: nat): CreditStruct
    requires 119 * i + 119 <= |body|
  {
    Decode(body[119 * i..][..119])
  }

  /** The record is whole, is filed under h, and has not expired. */
  ghost predicate KeptAt(body: Bytes, i: nat, expired: uint32, h: Hash)
    requires 119 * i + 119 <= |body|
  {
    RecordIn(body, i).key == h && RecordIn(body, i).lastSeen >= expired
  }

  /** Of the records from i to n under the hash h, the last one that has not expired is the one the list holds. */
  ghost predicate HoldsLast(body: Bytes, i: nat, n: nat, expired: uint32, before: map<Hash, CreditStruct>,
                            after: map<Hash, CreditStruct>, h: Hash)
    requires 119 * n <= |body|
  {
    if exists k :: i <= k < n && KeptAt(body, k, expired, h) then
      h in after && exists k :: i <= k < n && KeptAt(body, k, expired, h) && after[h] == RecordIn(body, k)
                                && forall j :: k < j < n ==> !KeptAt(body, j, expired, h)
    else
      if h in before then h in after && after[h] == before[h] else h !in after
  }

  /** Of a count of records, n are whole: the rest of the file is cut off. */
  predicate Whole(body: Bytes, count: nat, n: nat) {
    119 * n <= |body| && n <= count && (n < count ==> |body| < 119 * n + 119)
  }

  ghost predicate SomeTooLong(body: Bytes, i: nat, n: nat)
    requires 119 * n <= |body|
  {
    exists k :: i <= k < n && RecordIn(body, k).keySize > 80
  }

  lemma HoldsLastStep(body: Bytes, i: nat, n: nat, expired: uint32, before: map<Hash, CreditStruct>,
                      after: map<Hash, CreditStruct>, h: Hash)
    requires 119 * n <= |body| && i < n
    requires var r := RecordIn(body, i);
             HoldsLast(body, i + 1, n, expired, if r.lastSeen < expired then before else before[r.key := r], after, h)
    ensures HoldsLast(body, i, n, expired, before, after, h)
  {
    hide RecordIn;
    if k :| i + 1 <= k < n && KeptAt(body, k, expired, h) {
      assert i <= k < n;
    } else if KeptAt(body, i, expired, h) {
      assert forall j :: i < j < n ==> !KeptAt(body, j, expired, h);
    }
  }

  lemma {:induction false} LoadFromTells(body: Bytes, i: nat, count: nat, n: nat, expired: uint32, clients: map<Hash, CreditStruct>)
    requires Whole(body, count, n) && i <= n
    ensures var l := LoadFrom(body, i, count, expired, clients);
            if SomeTooLong(body, i, n) then l == Loaded(map[], Corrupt)
            else l.outcome == (if n < count then Truncated else Complete)
                 && forall h: Hash :: HoldsLast(body, i, n, expired, clients, l.clients, h)
    decreases count - i
  {
    if i == n {
      assert !SomeTooLong(body, i, n);
    } else {
      var r := RecordIn(body, i);
      var now := if r.lastSeen < expired then clients else clients[r.key := r];
      var l := LoadFrom(body, i, count, expired, clients);
      assert r.keySize <= 80 ==> l == LoadFrom(body, i + 1, count, expired, now);
      hide RecordIn, LoadFrom, HoldsLast;
      if r.keySize <= 80 {
        LoadFromTells(body, i + 1, count, n, expired, now);
        assert SomeTooLong(body, i, n) <==> SomeTooLong(body, i + 1, n);
        forall h: Hash | !SomeTooLong(body, i, n)
          ensures HoldsLast(body, i, n, expired, clients, l.clients, h)
        {
          HoldsLastStep(body, i, n, expired, clients, l.clients, h);
        }
      }
    }
  }

  /** What a load makes of any file: another version is left alone; a whole record with a key over 80 bytes empties the list;
      else the list holds, under each hash, the last whole record of the last 150 days. */
  lemma LoadTells(file: Bytes, n: nat, now: uint32, expired: uint32)
    requires |file| >= 5 ==> Whole(file[5..], Number(file[1..5]), n)
    requires expired == (now - 12_960_000) % TWO32
    ensures file != [] && file[0] != 0x12 ==> Load(file, now) == Loaded(map[], Outdated)
    ensures file == [] || (file[0] == 0x12 && |file| < 5) ==> Load(file, now) == Loaded(map[], Truncated)
    ensures |file| >= 5 && file[0] == 0x12 ==>
              if SomeTooLong(file[5..], 0, n) then Load(file, now) == Loaded(map[], Corrupt)
              else Load(file, now).outcome == (if n < Number(file[1..5]) then Truncated else Complete)
                   && forall h: Hash :: HoldsLast(file[5..], 0, n, expired, map[], Load(file, now).clients, h)
  {
    if |file| >= 5 && file[0] == 0x12 {
      hide SomeTooLong, HoldsLast, LoadFrom, Number;
      LoadFromTells(file[5..], 0, Number(file[1..5]), n, expired, map[]);
    }
  }

  lemma FileMore(entries: seq<CreditStruct>, r: CreditStruct)
    ensures FileOf(0, entries + [r]) == FileOf(0, entries) + Encode(r)
  {
    assert (entries + [r])[..|entries|] == entries;
  }

  lemma SelectMore(clients: map<Hash, CreditStruct>, left: set<Hash>, entries: seq<CreditStruct>, k: Hash)
    requires KeyedByHash(clients) && left <= clients.Keys && k in left && HasTraffic(clients[k])
    requires Selects(Without(clients, left), entries)
    ensures Selects(Without(clients, left - {k}), entries + [clients[k]])
  {
    var more := entries + [clients[k]];
    var seen := Without(clients, left);
    var now := Without(clients, left - {k});
    forall h | h in now && HasTraffic(now[h]) ensures now[h] in more {
      if h != k {
        assert h in seen && seen[h] == now[h];
      }
    }
    assert Distinct(more) by {
      forall i, j | 0 <= i < j < |more| ensures more[i].key != more[j].key {
        if j == |entries| {
          assert entries[i].key in seen;
        }
      }
    }
  }

  lemma SelectNone(clients: map<Hash, CreditStruct>, left: set<Hash>, entries: seq<CreditStruct>, k: Hash)
    requires k in left && k in clients && !HasTraffic(clients[k])
    requires Selects(Without(clients, left), entries)
    ensures Selects(Without(clients, left - {k}), entries)
  {
    var seen := Without(clients, left);
    var now := Without(clients, left - {k});
    hide HasTraffic;
    forall h | h in now && HasTraffic(now[h]) ensures now[h] in entries {
      assert h != k && h in seen && seen[h] == now[h];
    }
  }
}
