/** Which client is a source of which file, and how often each part is available. */
module Sources {
  import opened Words
  import opened PartStatus

  datatype DownloadState = DS_NONE | DS_DOWNLOADING | DS_ONQUEUE | DS_NONEEDEDPARTS | DS_REQHASHSET | DS_ERROR | DS_OTHER

  const PURGESOURCESWAPSTOP := 900_000
  const PR_HIGH := 2

  datatype Stamp = Stamp(neededParts: bool, timestamp: uint32)

  /** What follows the file hash: the number of parts, if the packet holds it, and the bytes of their bits. */
  datatype StatusPacket = StatusPacket(count: Option<nat>, bits: seq<bv8>)

  datatype PacketResult = PROCESSED | WRONG_FILE | WRONG_PART_COUNT | TRUNCATED

  /** Every part the client has is one we have. */
  predicate NothingNeeded(status: seq<bool>, complete: set<nat>) {
    forall j :: 0 <= j < |status| && status[j] ==> j in complete
  }

  /** The file a client requests and the parts it has of it. */
  datatype Ask = Ask(file: PartFile?, parts: seq<bool>)

  // ---- counting ----------------------------------------------------------------

  ghost predicate Has(ask: Ask, f: PartFile, part: nat) {
    ask.file == f && |ask.parts| == f.partCount && part < |ask.parts| && ask.parts[part]
  }

  ghost function Holders(asks: map<Client, Ask>, f: PartFile, part: nat): set<Client> {
    set c | c in asks && Has(asks[c], f, part)
  }

  ghost function Number(asks: map<Client, Ask>, f: PartFile, part: nat): nat {
    |Holders(asks, f, part)|
  }

  /** Every frequency of a file is the number of clients that request the file and have the part, modulo 2^16. */
  ghost predicate CountedBy(freq: seq<uint16>, f: PartFile, asks: map<Client, Ask>) {
    forall part :: 0 <= part < f.partCount ==> IsCount(freq, f.partCount, part, Number(asks, f, part))
  }

  /** The parts that some client has, as far as a 16-bit count tells. */
  ghost function HeldParts(asks: map<Client, Ask>, f: PartFile): set<nat> {
    set part: nat | part < f.partCount && Wrapped(Number(asks, f, part)) != 0
  }

  lemma OneMore(asks: map<Client, Ask>, c: Client, f: PartFile, part: nat)
    ensures Number(asks, f, part) == Number(asks - {c}, f, part) + if c in asks && Has(asks[c], f, part) then 1 else 0
  {
    hide Has;
    var others := Holders(asks - {c}, f, part);
    if c in asks && Has(asks[c], f, part) {
      assert Holders(asks, f, part) == others + {c};
    } else {
      assert Holders(asks, f, part) == others;
    }
  }

  /** The client as the counters see it: in the list, or without parts. */
  ghost predicate Stands(asks: map<Client, Ask>, c: Client, ask: Ask) {
    if c in asks then asks[c] == ask else ask.parts == []
  }

  /** Taking a client's parts away leaves the count of the others; adding them makes the count of all. */
  lemma CountFollows(freq: seq<uint16>, f: PartFile, asks: map<Client, Ask>, c: Client, ask: Ask, increment: bool)
    requires Stands(asks, c, ask) && ask.file == f
    requires CountedBy(freq, f, if increment then asks - {c} else asks)
    ensures CountedBy(Updated(freq, f.partCount, ask.parts, increment), f, if increment then asks else asks - {c})
  {
    var after, whom := Updated(freq, f.partCount, ask.parts, increment), if increment then asks else asks - {c};
    forall part | 0 <= part < f.partCount
      ensures IsCount(after, f.partCount, part, Number(whom, f, part))
    {
      OneMore(asks, c, f, part);
      hide Number, Updated, IsCount;
      UpdatedIsCount(freq, f.partCount, ask.parts, increment, part, Number(asks - {c}, f, part));
    }
  }

  /** A client that requests another file, or has no parts, does not count. */
  lemma DoesNotCount(freq: seq<uint16>, f: PartFile, asks: map<Client, Ask>, c: Client, ask: Ask)
    requires Stands(asks, c, ask) && (ask.file != f || ask.parts == [])
    ensures CountedBy(freq, f, asks) <==> CountedBy(freq, f, asks - {c})
  {
    forall part | 0 <= part < f.partCount
      ensures Number(asks, f, part) == Number(asks - {c}, f, part)
    {
      OneMore(asks, c, f, part);
    }
    hide Number, IsCount;
  }

  // ---- the objects ---------------------------------------------------------------

  class PartFile {
    const partCount: nat
    var ed2kPartCount: nat
    var srcList: set<Client>
    var a4afSrcList: set<Client>
    var freq: seq<uint16>
    var availableParts: nat
    var stopped: bool
    var ready: bool
    var priority: nat

    constructor (parts: nat)
      ensures partCount == ed2kPartCount == parts && srcList == {} && a4afSrcList == {} && freq == [] && availableParts == 0
      ensures !stopped && ready && priority == 1
    {
      partCount := parts;
      ed2kPartCount, srcList, a4afSrcList, freq, availableParts := parts, {}, {}, [], 0;
      stopped, ready, priority := false, true, 1;
    }

    /** Takes the parts of a client out of the frequencies, or puts them in again. */
    method UpdatePartsFrequency(client: Client, increment: bool, ghost asks: map<Client, Ask>)
      requires client.reqfile == this && Stands(asks, client, client.Asking())
      requires CountedBy(freq, this, if increment then asks - {client} else asks)
      modifies `freq
      ensures CountedBy(freq, this, if increment then asks else asks - {client})
    {
      CountFollows(freq, this, asks, client, client.Asking(), increment);
      hide CountedBy, Updated;
      freq := UpdateCounters(freq, partCount, client.partStatus, increment);
    }

    /** Sets the counters up if nobody has yet, and counts the parts that can be had. */
    method UpdatePartsInfo(ghost asks: map<Client, Ask>)
      requires CountedBy(freq, this, asks)
      modifies `freq, `availableParts
      ensures CountedBy(freq, this, asks) && |freq| == partCount && availableParts == |HeldParts(asks, this)|
      ensures availableParts == |set part: nat | part < partCount && Number(asks, this, part) % 0x1_0000 != 0|
    {
      if |freq| != partCount {
        assert forall part :: 0 <= part < partCount ==> IsCount(freq, partCount, part, Number(asks, this, part));
        hide Number;
        freq := seq(partCount, _ => 0);
      }
      availableParts := CountAvailable(freq);
      assert forall part :: 0 <= part < partCount ==> IsCount(freq, partCount, part, Number(asks, this, part));
      assert Available(freq, |freq|) == HeldParts(asks, this);
      assert HeldParts(asks, this) == set part: nat | part < partCount && Number(asks, this, part) % 0x1_0000 != 0;
    }
  }

  class Client {
    var reqfile: PartFile?
    var a4af: map<PartFile, Stamp>
    var partStatus: seq<bool>
    var nPartCount: nat
    var state: DownloadState
    var completeSource: bool

    constructor ()
      ensures reqfile == null && a4af == map[] && partStatus == [] && nPartCount == 0 && state == DS_NONE && !completeSource
    {
      reqfile, a4af, partStatus, nPartCount, state, completeSource := null, map[], [], 0, DS_NONE, false;
    }

    ghost function Asking(): Ask
      reads `reqfile, `partStatus
    {
      Ask(reqfile, partStatus)
    }

    /** Takes this client out of the counters of its request file. */
    method TakeOut(q: DownloadQueue)
      requires q.Counted() && q.Known(this)
      modifies q.files`freq
      ensures q.CountedFor(q.Asks() - {this})
    {
      ghost var asks := q.Asks();
      q.OthersDoNotCount(this);
      hide CountedBy;
      if reqfile != null {
        reqfile.UpdatePartsFrequency(this, false, asks);
      }
    }

    /** Puts this client into the counters of its request file. */
    method PutIn(q: DownloadQueue)
      requires q.CountedFor(q.Asks() - {this}) && q.Known(this)
      modifies q.files`freq
      ensures q.Counted()
    {
      ghost var asks := q.Asks();
      q.OthersDoNotCount(this);
      hide CountedBy;
      if reqfile != null {
        reqfile.UpdatePartsFrequency(this, true, asks);
      }
    }

    method SetParts(q: DownloadQueue, file: PartFile?, parts: nat, status: seq<bool>)
      requires q.CountedFor(q.Asks() - {this})
      modifies `reqfile, `partStatus, `nPartCount
      ensures reqfile == file && partStatus == status && nPartCount == parts
      ensures q.CountedFor(q.Asks() - {this})
    {
      ghost var others := q.Asks() - {this};
      reqfile, partStatus, nPartCount := file, status, parts;
      assert q.Asks() - {this} == others;
      hide CountedBy;
    }

    /** Forgets the part status; the counters of the request file follow. */
    method ForgetParts(q: DownloadQueue)
      requires q.Counted() && q.Known(this)
      modifies `reqfile, `partStatus, `nPartCount, q.files`freq
      ensures q.Counted() && reqfile == old(reqfile) && partStatus == [] && nPartCount == 0
      ensures old(q.Related()) ==> q.Related()
    {
      hide CountedBy, DownloadQueue.Related;
      TakeOut(q);
      SetParts(q, reqfile, 0, []);
      q.NoPartsNoCount(this);
      KeepRelated(q);
    }

    /** Changing the parts leaves the relation alone. */
    twostate lemma KeepRelated(q: DownloadQueue)
      requires q.files == old(q.files) && q.clients == old(q.clients) && reqfile == old(reqfile) && a4af == old(a4af)
      requires forall f :: f in q.files ==> f.srcList == old(f.srcList) && f.a4afSrcList == old(f.a4afSrcList)
      requires forall x :: x in q.clients && x != this ==> x.reqfile == old(x.reqfile) && x.a4af == old(x.a4af)
      ensures old(q.Related()) ==> q.Related()
    {
      if old(q.Related()) {
        q.StaysRelated(this);
      }
    }

    method SetRequestFile(q: DownloadQueue, file: PartFile?)
      requires q.Counted() && q.Known(this)
      modifies `reqfile, `partStatus, `nPartCount, q.files`freq
      ensures q.Counted() && reqfile == file
      ensures file != old(reqfile) ==> partStatus == [] && nPartCount == if file == null then 0 else file.partCount
      ensures file == old(reqfile) ==> partStatus == old(partStatus) && nPartCount == old(nPartCount)
    {
      hide CountedBy;
      if reqfile != file {
        TakeOut(q);
        SetParts(q, file, if file == null then 0 else file.partCount, []);
        q.NoPartsNoCount(this);
      }
    }

    method ResetFileStatusInfo(q: DownloadQueue)
      requires q.Counted() && q.Known(this)
      modifies `reqfile, `partStatus, `nPartCount, `completeSource, q.files`freq
      ensures q.Counted() && reqfile == old(reqfile) && partStatus == [] && nPartCount == 0 && !completeSource
      ensures old(q.Valid()) ==> q.Valid()
    {
      hide CountedBy, DownloadQueue.Related;
      ForgetParts(q);
      completeSource := false;
    }

    method SetDownloadState(q: DownloadQueue, newState: DownloadState)
      requires q.Counted() && q.Known(this)
      modifies `state, `reqfile, `partStatus, `nPartCount, q.files`freq
      ensures q.Counted() && state == newState && reqfile == old(reqfile)
      ensures var forgets := old(state) == DS_DOWNLOADING && newState == DS_NONE;
              && partStatus == (if forgets then [] else old(partStatus))
              && nPartCount == (if forgets then 0 else old(nPartCount))
      ensures old(q.Related()) ==> q.Related()
      ensures old(q.Valid()) ==> q.Valid()
    {
      hide CountedBy, DownloadQueue.Related;
      if state == DS_DOWNLOADING && newState == DS_NONE {
        ForgetParts(q);
      }
      state := newState;
    }

    /** No request file, no state, no parts. */
    method StopAsking(q: DownloadQueue)
      requires q.Counted() && q.Known(this) && q.RelatedBut(this) && q.NowhereIn(this)
      modifies `state, `reqfile, `partStatus, `nPartCount, `completeSource, q.files`freq
      ensures q.Counted() && reqfile == null && partStatus == [] && nPartCount == 0 && state == DS_NONE
      ensures q.RelatedBut(this)
    {
      hide DownloadQueue.Counted, DownloadQueue.RelatedBut, DownloadQueue.NowhereIn, DownloadQueue.Linked;
      SetRequestFile(q, null);
      SetDownloadState(q, DS_NONE);
      ResetFileStatusInfo(q);
      q.OthersStayLinked(this);
    }

    // ---- packets that tell the parts -----------------------------------------------

    /** Replaces the part status: out of the counters, changed, and in again. */
    method Recount(q: DownloadQueue, parts: nat, status: seq<bool>)
      requires q.Counted() && q.Known(this) && this in q.clients
      modifies `reqfile, `partStatus, `nPartCount, q.files`freq
      ensures q.Counted() && reqfile == old(reqfile) && partStatus == status && nPartCount == parts
      ensures old(q.Related()) ==> q.Related()
    {
      hide CountedBy, DownloadQueue.Counted, DownloadQueue.CountedFor, DownloadQueue.Asks, DownloadQueue.Related;
      TakeOut(q);
      SetParts(q, reqfile, parts, status);
      PutIn(q);
      KeepRelated(q);
    }

    method UpdateInfo(q: DownloadQueue, file: PartFile)
      requires q.Counted() && file in q.files
      modifies file`freq, file`availableParts
      ensures q.Counted() && file.availableParts == |HeldParts(q.Asks(), file)|
    {
      hide CountedBy, DownloadQueue.Asks;
      file.UpdatePartsInfo(q.Asks());
    }

    /** What follows a part status: the new state, and the file's counters. */
    method FollowUp(q: DownloadQueue, nothingNeeded: bool, udpPacket: bool, next: Option<DownloadState>)
      requires q.Counted() && q.Known(this) && reqfile != null && next != Some(DS_NONE)
      modifies `reqfile, `partStatus, `nPartCount, `state, q.files`freq, q.files`availableParts
      ensures q.Counted() && reqfile == old(reqfile) && partStatus == old(partStatus) && nPartCount == old(nPartCount)
      ensures old(q.Related()) ==> q.Related()
      ensures state == if nothingNeeded then DS_NONEEDEDPARTS
                       else if udpPacket then DS_ONQUEUE else if next.Some? then next.value else old(state)
      ensures reqfile.availableParts == |HeldParts(q.Asks(), reqfile)|
      ensures forall f :: f in q.files && f != reqfile ==> f.availableParts == old(f.availableParts)
    {
      hide CountedBy, DownloadQueue.Counted, DownloadQueue.CountedFor, DownloadQueue.Asks, DownloadQueue.Related;
      if nothingNeeded {
        SetDownloadState(q, DS_NONEEDEDPARTS);
      } else if udpPacket {
        SetDownloadState(q, DS_ONQUEUE);
      } else if next.Some? {
        SetDownloadState(q, next.value);
      }
      UpdateInfo(q, reqfile);
    }

    /**
     * `complete` are the parts we have; `next` is the state that sending the follow-up request leads to, if it is sent.
     * Whatever the packet holds, and even if it is cut short, the frequencies stay right.
     */
    method ProcessFileStatus(q: DownloadQueue, udpPacket: bool, packet: StatusPacket, file: PartFile?,
                             complete: set<nat>, next: Option<DownloadState>)
      returns (result: PacketResult)
      requires q.Counted() && q.Known(this) && this in q.clients && next != Some(DS_NONE)
      modifies `reqfile, `partStatus, `nPartCount, `state, `completeSource, q.files`freq, q.files`availableParts
      ensures q.Counted() && reqfile == old(reqfile)
      ensures old(q.Valid()) ==> q.Valid()
      ensures result.WRONG_FILE? <==> old(reqfile) == null || file != old(reqfile)
      ensures packet.count.None? && !result.WRONG_FILE? ==> result.TRUNCATED?
      ensures result.WRONG_FILE? || packet.count.None? ==> partStatus == old(partStatus) && nPartCount == old(nPartCount)
      ensures result.WRONG_PART_COUNT? <==> (old(reqfile) != null && file == old(reqfile) && packet.count.Some?
                                             && packet.count.value != 0 && packet.count.value != old(reqfile).ed2kPartCount)
      ensures result.WRONG_PART_COUNT? ==> partStatus == [] && nPartCount == 0
      ensures result.WRONG_FILE? || result.WRONG_PART_COUNT? || packet.count.None? ==>
                state == old(state) && completeSource == old(completeSource)
      ensures !result.WRONG_FILE? && !result.WRONG_PART_COUNT? && packet.count.Some? && old(reqfile) != null ==>
        (var n := old(reqfile).partCount;
          && partStatus == (if packet.count.value == 0 then seq(n, _ => true) else Decoded(n, packet.bits))
          && (result.TRUNCATED? <==> packet.count.value != 0 && |packet.bits| < BytesFor(n))
          && nPartCount == n && completeSource == (packet.count.value == 0)
          && (result.PROCESSED? ==>
                state == if packet.count.value != 0 && (forall j :: 0 <= j < |partStatus| && partStatus[j] ==> j in complete)
                         then DS_NONEEDEDPARTS
                         else if udpPacket then DS_ONQUEUE else if next.Some? then next.value else old(state))
          && (result.TRUNCATED? ==> state == old(state)))
      ensures result.PROCESSED? && reqfile != null ==> reqfile.availableParts == |HeldParts(q.Asks(), reqfile)|
      ensures forall f :: f in q.files && !(result.PROCESSED? && f == reqfile) ==> f.availableParts == old(f.availableParts)
    {
      hide CountedBy, DownloadQueue.Counted, DownloadQueue.CountedFor, DownloadQueue.Asks, DownloadQueue.Related, Decoded,
           BytesFor;
      if reqfile == null || file != reqfile {
        return WRONG_FILE;
      }
      if packet.count.None? {
        return TRUNCATED;
      }
      var parts := reqfile.partCount;
      var whole := true;
      var status: seq<bool> := [];
      if packet.count.value == 0 {
        status := seq(parts, _ => true);
        completeSource := true;
      } else if reqfile.ed2kPartCount != packet.count.value {
        ForgetParts(q);
        return WRONG_PART_COUNT;
      } else {
        completeSource := false;
        var read;
        status, read, whole := ReadStatus(parts, packet.bits);
      }
      Recount(q, parts, status);
      if !whole {
        return TRUNCATED;
      }
      FollowUp(q, packet.count.value != 0 && NothingNeeded(status, complete), udpPacket, next);
      result := PROCESSED;
    }

    /** For a file of one part, answering the file name means having the file. */
    method ProcessFileInfo(q: DownloadQueue, file: PartFile?, next: Option<DownloadState>) returns (result: PacketResult)
      requires q.Counted() && q.Known(this) && this in q.clients && next != Some(DS_NONE)
      modifies `reqfile, `partStatus, `nPartCount, `state, `completeSource, q.files`freq, q.files`availableParts
      ensures q.Counted() && reqfile == old(reqfile)
      ensures old(q.Valid()) ==> q.Valid()
      ensures result.PROCESSED? <==> old(reqfile) != null && file == old(reqfile)
      ensures var single := result.PROCESSED? && old(reqfile) != null && old(reqfile).partCount == 1;
              && partStatus == (if single then [true] else old(partStatus))
              && nPartCount == (if single then 1 else old(nPartCount))
              && completeSource == (single || old(completeSource))
              && state == (if single && next.Some? then next.value else old(state))
              && (single ==> reqfile.availableParts == |HeldParts(q.Asks(), reqfile)|)
      ensures forall f :: f in q.files && !(result.PROCESSED? && f == reqfile) ==> f.availableParts == old(f.availableParts)
    {
      hide CountedBy, DownloadQueue.Counted, DownloadQueue.CountedFor, DownloadQueue.Asks, DownloadQueue.Related;
      if file == null || reqfile == null || file != reqfile {
        return WRONG_FILE;
      }
      if reqfile.partCount == 1 {
        Recount(q, 1, [true]);
        completeSource := true;
        if next.Some? {
          SetDownloadState(q, next.value);
        }
        UpdateInfo(q, reqfile);
      }
      result := PROCESSED;
    }

    // ---- asking for other files --------------------------------------------------

    /** Enters the file among the other requests. The relation of sources asks that the client has a
        request file, another one; it is lost exactly when a file is entered for a client without. */
    method AddRequestForAnotherFile(q: DownloadQueue, file: PartFile) returns (added: bool)
      requires q.Valid() && this in q.clients && file in q.files
      modifies `a4af, file`a4afSrcList
      ensures q.Valid() <==> !added || (reqfile != null && reqfile != file)
      ensures added <==> file !in old(a4af)
      ensures a4af == if added then old(a4af)[file := Stamp(true, 0)] else old(a4af)
      ensures file.a4afSrcList == old(file.a4afSrcList) + {this}
    {
      hide CountedBy, DownloadQueue.CountedFor, DownloadQueue.Asks;
      assert q.Linked(this);
      added := file !in a4af;
      if added {
        a4af := a4af[file := Stamp(true, 0)];
        file.a4afSrcList := file.a4afSrcList + {this};
        q.OthersStayLinked(this);
      }
    }

    /** A file this source could be swapped to. */
    predicate Acceptable(f: PartFile, stamp: Stamp, ignoreNoNeeded: bool, ignoreSuspended: bool, now: uint32)
      reads f, this`reqfile
    {
      && (ignoreSuspended || Ticks(now, stamp.timestamp) >= PURGESOURCESWAPSTOP)
      && (ignoreNoNeeded || stamp.neededParts)
      && f != reqfile && !f.stopped && f.ready
    }

    /** Also clears the timestamp of a suspension that is over. */
    method IsValidSwapTarget(f: PartFile, ignoreNoNeeded: bool, ignoreSuspended: bool, now: uint32) returns (ok: bool)
      requires f in a4af
      modifies `a4af
      ensures ok <==> Acceptable(f, old(a4af)[f], ignoreNoNeeded, ignoreSuspended, now)
      ensures var stamp := old(a4af)[f];
              ok <==> f != reqfile && !f.stopped && f.ready && (ignoreNoNeeded || stamp.neededParts)
                      && (ignoreSuspended || Ticks(now, stamp.timestamp) >= 900_000)
      ensures a4af.Keys == old(a4af.Keys)
      ensures a4af[f].timestamp == if ignoreSuspended || Ticks(now, old(a4af)[f].timestamp) < 900_000
                                   then old(a4af)[f].timestamp else 0
      ensures forall g :: g in a4af ==> a4af[g].neededParts == old(a4af)[g].neededParts
      ensures forall g :: g in a4af && g != f ==> a4af[g] == old(a4af)[g]
    {
      var stamp := a4af[f];
      if !ignoreSuspended {
        if Ticks(now, stamp.timestamp) >= PURGESOURCESWAPSTOP {
          a4af := a4af[f := stamp.(timestamp := 0)];
        } else {
          return false;
        }
      }
      if !ignoreNoNeeded && !stamp.neededParts {
        return false;
      }
      ok := f != reqfile && !f.stopped && f.ready;
    }

    /** Looking for a target changes no stamp, but that it clears the timestamp of a suspension that is over. */
    static ghost predicate StampsKept(was: map<PartFile, Stamp>, now: map<PartFile, Stamp>, ignoreSuspended: bool, ticks: uint32) {
      forall g :: g in now ==>
        && g in was && now[g].neededParts == was[g].neededParts
        && (now[g].timestamp == was[g].timestamp
            || (now[g].timestamp == 0 && !ignoreSuspended && Ticks(ticks, was[g].timestamp) >= 900_000))
    }

    static lemma NothingChecked(was: map<PartFile, Stamp>, ignoreSuspended: bool, ticks: uint32)
      ensures StampsKept(was, was, ignoreSuspended, ticks)
    {
    }

    static lemma OneMoreChecked(was: map<PartFile, Stamp>, before: map<PartFile, Stamp>, now: map<PartFile, Stamp>,
                                ignoreSuspended: bool, ticks: uint32, f: PartFile)
      requires StampsKept(was, before, ignoreSuspended, ticks)
      requires f in before && f in was && before[f] == was[f] && now.Keys == before.Keys
      requires forall g :: g in now && g != f ==> now[g] == before[g]
      requires now[f].neededParts == before[f].neededParts
      requires now[f].timestamp == if ignoreSuspended || Ticks(ticks, before[f].timestamp) < 900_000 then before[f].timestamp else 0
      ensures StampsKept(was, now, ignoreSuspended, ticks)
    {
    }

    /** The rating that the search maximises: files with needed parts come first. */
    function Rate(f: PartFile, stamp: Stamp): nat
      reads f`priority
    {
      f.priority + if stamp.neededParts then 10 else 0
    }

    lemma SameRate(was: map<PartFile, Stamp>, now: map<PartFile, Stamp>, ignoreSuspended: bool, ticks: uint32, f: PartFile)
      requires StampsKept(was, now, ignoreSuspended, ticks) && f in now && f in was
      ensures Rate(f, now[f]) == Rate(f, was[f])
    {
    }

    /**
     * An acceptable file of the highest rating, if there is one; the search ends early
     * at a file of high priority that has needed parts.
     */
    method BestSwapTarget(ignoreNoNeeded: bool, ignoreSuspended: bool, now: uint32) returns (target: PartFile?)
      modifies `a4af
      ensures a4af.Keys == old(a4af.Keys)
      ensures target != null ==>
        target in a4af && Acceptable(target, old(a4af)[target], ignoreNoNeeded, ignoreSuspended, now)
      ensures StampsKept(old(a4af), a4af, ignoreSuspended, now)
      ensures forall f :: f in old(a4af) && Acceptable(f, old(a4af)[f], ignoreNoNeeded, ignoreSuspended, now) ==>
        target != null && (Rate(f, old(a4af)[f]) <= Rate(target, old(a4af)[target]) || Rate(target, old(a4af)[target]) == PR_HIGH + 10)
    {
      hide Acceptable, StampsKept, Rate;
      target := null;
      var rest := a4af.Keys;
      ghost var stamps := a4af;
      NothingChecked(stamps, ignoreSuspended, now);
      while rest != {}
        invariant rest <= a4af.Keys == stamps.Keys
        invariant forall g :: g in rest ==> a4af[g] == stamps[g]
        invariant StampsKept(stamps, a4af, ignoreSuspended, now)
        invariant target != null ==> target in stamps && Acceptable(target, stamps[target], ignoreNoNeeded, ignoreSuspended, now)
        invariant forall f :: f in stamps && f !in rest && Acceptable(f, stamps[f], ignoreNoNeeded, ignoreSuspended, now) ==>
          target != null && Rate(f, stamps[f]) <= Rate(target, stamps[target])
        decreases rest
      {
        var f :| f in rest;
        rest := rest - {f};
        ghost var before := a4af;
        var ok := IsValidSwapTarget(f, ignoreNoNeeded, ignoreSuspended, now);
        OneMoreChecked(stamps, before, a4af, ignoreSuspended, now, f);
        SameRate(stamps, a4af, ignoreSuspended, now, f);
        if target != null {
          SameRate(stamps, a4af, ignoreSuspended, now, target);
        }
        if ok && (target == null || Rate(f, a4af[f]) > Rate(target, a4af[target])) {
          target := f;
          if Rate(f, a4af[f]) == PR_HIGH + 10 {
            return;
          }
        }
      }
    }

    /** What the best file is worth, in terms of parts and priorities: it has needed parts if any acceptable file has, and
        among those alike in that no acceptable file has a higher priority, unless it has needed parts and high priority. */
    lemma BestIsPreferred(target: PartFile, stamps: map<PartFile, Stamp>, ignoreNoNeeded: bool, ignoreSuspended: bool,
                          now: uint32, f: PartFile)
      requires target in stamps && Best(target, stamps, ignoreNoNeeded, ignoreSuspended, now)
      requires f in stamps && Acceptable(f, stamps[f], ignoreNoNeeded, ignoreSuspended, now)
      requires target.priority < 10 && f.priority < 10
      ensures stamps[f].neededParts ==> stamps[target].neededParts
      ensures stamps[f].neededParts == stamps[target].neededParts ==>
                f.priority <= target.priority || (stamps[target].neededParts && target.priority == 2)
    {
      hide Acceptable;
    }

    /** No acceptable file is rated higher, unless the search ended early. */
    ghost predicate Best(target: PartFile, stamps: map<PartFile, Stamp>, ignoreNoNeeded: bool, ignoreSuspended: bool, now: uint32)
      requires target in stamps
      reads `reqfile, stamps.Keys
    {
      forall f :: f in stamps && Acceptable(f, stamps[f], ignoreNoNeeded, ignoreSuspended, now) ==>
        Rate(f, stamps[f]) <= Rate(target, stamps[target]) || Rate(target, stamps[target]) == PR_HIGH + 10
    }

    /** The file to swap to: the wanted one, whose suspension is ignored, or the best. */
    method FindSwapTarget(ignoreNoNeeded: bool, ignoreSuspensions: bool, toFile: PartFile?, now: uint32)
      returns (target: PartFile?)
      modifies `a4af
      ensures a4af.Keys == old(a4af.Keys)
      ensures StampsKept(old(a4af), a4af, ignoreSuspensions, now)
      ensures target != null ==> target in a4af && (toFile != null ==> target == toFile)
      ensures target != null ==> Acceptable(target, old(a4af)[target], ignoreNoNeeded, ignoreSuspensions || toFile != null, now)
      ensures target == null ==> forall f :: f in old(a4af) && (toFile == null || toFile == f) ==>
        !Acceptable(f, old(a4af)[f], ignoreNoNeeded, ignoreSuspensions || toFile != null, now)
      ensures target != null && toFile == null ==> old(Best(target, a4af, ignoreNoNeeded, ignoreSuspensions, now))
    {
      target := null;
      if toFile != null {
        if toFile in a4af {
          var ok := IsValidSwapTarget(toFile, ignoreNoNeeded, true, now);
          target := if ok then toFile else null;
        }
      } else {
        target := BestSwapTarget(ignoreNoNeeded, ignoreSuspensions, now);
      }
    }

    /** Looking for a target changes nothing about the relation. */
    method SwapTargetIn(q: DownloadQueue, ignoreNoNeeded: bool, ignoreSuspensions: bool, toFile: PartFile?, now: uint32)
      returns (target: PartFile?)
      requires q.Related() && this in q.clients
      modifies `a4af
      ensures q.Related() && a4af.Keys == old(a4af.Keys)
      ensures StampsKept(old(a4af), a4af, ignoreSuspensions, now)
      ensures target != null ==> target in a4af && (toFile != null ==> target == toFile)
      ensures target != null ==> Acceptable(target, old(a4af)[target], ignoreNoNeeded, ignoreSuspensions || toFile != null, now)
      ensures target == null ==> forall f :: f in old(a4af) && (toFile == null || toFile == f) ==>
        !Acceptable(f, old(a4af)[f], ignoreNoNeeded, ignoreSuspensions || toFile != null, now)
      ensures target != null && toFile == null ==> old(Best(target, a4af, ignoreNoNeeded, ignoreSuspensions, now))
      ensures target != null && toFile == null ==>
        forall f :: f in old(a4af) && old(Acceptable(f, a4af[f], ignoreNoNeeded, ignoreSuspensions, now))
                    && f.priority < 10 && target.priority < 10 ==>
          && (old(a4af)[f].neededParts ==> old(a4af)[target].neededParts)
          && (old(a4af)[f].neededParts == old(a4af)[target].neededParts ==>
                f.priority <= target.priority || (old(a4af)[target].neededParts && target.priority == 2))
    {
      hide Acceptable;
      assert q.Linked(this);
      ghost var stamps := a4af;
      target := FindSwapTarget(ignoreNoNeeded, ignoreSuspensions, toFile, now);
      if target != null && toFile == null {
        forall f | f in stamps && old(Acceptable(f, stamps[f], ignoreNoNeeded, ignoreSuspensions, now))
                   && f.priority < 10 && target.priority < 10
          ensures stamps[f].neededParts ==> stamps[target].neededParts
          ensures stamps[f].neededParts == stamps[target].neededParts ==>
                    f.priority <= target.priority || (stamps[target].neededParts && target.priority == 2)
        {
          BestIsPreferred(target, stamps, ignoreNoNeeded, ignoreSuspensions, now, f);
        }
      }
      hide Best, Rate;
      assert q.Linked(this);
      q.OthersStayLinked(this);
    }

    /** In no file's sources, and asking for `target` only on this side. */
    ghost predicate Left(q: DownloadQueue, target: PartFile)
      reads q`files, `a4af, q.files`srcList, q.files`a4afSrcList
    {
      && target in q.files && target in a4af
      && (forall f :: f in a4af ==> f in q.files)
      && (forall f :: f in q.files ==> this !in f.srcList)
      && (forall f :: f in q.files ==> (this in f.a4afSrcList <==> f in a4af && f != target))
    }

    /** Out of the old file's sources and the new file's requests. */
    method LeaveFile(q: DownloadQueue, target: PartFile, removeCompletely: bool, now: uint32)
      requires q.Related() && this in q.clients && reqfile != null && target in a4af
      modifies `a4af, q.files`srcList, q.files`a4afSrcList
      ensures q.RelatedBut(this) && Left(q, target)
      ensures a4af == if removeCompletely then old(a4af) else old(a4af)[reqfile := Stamp(state != DS_NONEEDEDPARTS, now)]
    {
      assert q.Linked(this);
      reqfile.srcList := reqfile.srcList - {this};
      target.a4afSrcList := target.a4afSrcList - {this};
      if !removeCompletely {
        reqfile.a4afSrcList := reqfile.a4afSrcList + {this};
        a4af := a4af[reqfile := Stamp(state != DS_NONEEDEDPARTS, now)];
      }
      q.OthersStayLinked(this);
    }

    method AskFor(q: DownloadQueue, file: PartFile)
      requires q.Counted() && q.Known(this) && file in q.files && file != reqfile
      requires q.RelatedBut(this) && this in q.clients
      modifies `state, `reqfile, `partStatus, `nPartCount, `completeSource, q.files`freq
      ensures q.Counted() && reqfile == file && partStatus == [] && state == DS_NONE
      ensures nPartCount == file.partCount && !completeSource
      ensures q.RelatedBut(this)
    {
      hide DownloadQueue.Counted;
      SetDownloadState(q, DS_NONE);
      ResetFileStatusInfo(q);
      SetRequestFile(q, file);
      q.OthersStayLinked(this);
    }

    method EnterFile(q: DownloadQueue, target: PartFile)
      requires q.RelatedBut(this) && this in q.clients && Left(q, target) && reqfile == target
      modifies `a4af, target`srcList
      ensures q.Related() && a4af == old(a4af) - {target}
    {
      target.srcList := target.srcList + {this};
      a4af := a4af - {target};
      assert q.Linked(this);
      q.OthersStayLinked(this);
    }

    /** The client always is among its request file's sources, so the removal there cannot fail. */
    method ChangeFile(q: DownloadQueue, target: PartFile, removeCompletely: bool, now: uint32)
      requires q.Related() && q.Counted() && q.Known(this) && this in q.clients
      requires reqfile != null && target in a4af && target in q.files && target != reqfile
      modifies `a4af, `state, `reqfile, `partStatus, `nPartCount, `completeSource
      modifies q.files`srcList, q.files`a4afSrcList, q.files`freq
      ensures q.RelatedBut(this) && Left(q, target) && q.Counted()
      ensures reqfile == target && state == DS_NONE && partStatus == [] && nPartCount == target.partCount && !completeSource
      ensures a4af == if removeCompletely then old(a4af)
                      else old(a4af)[old(reqfile) := Stamp(old(state) != DS_NONEEDEDPARTS, now)]
    {
      hide *;
      LeaveFile(q, target, removeCompletely, now);
      AskFor(q, target);
    }

    method SwapTo(q: DownloadQueue, target: PartFile, removeCompletely: bool, now: uint32)
      requires q.Related() && q.Counted() && this in q.clients && reqfile != null && target in a4af
      modifies `a4af, `state, `reqfile, `partStatus, `nPartCount, `completeSource
      modifies q.files`srcList, q.files`a4afSrcList, q.files`freq
      ensures q.Related() && q.Counted() && reqfile == target && state == DS_NONE && partStatus == []
      ensures nPartCount == target.partCount && !completeSource
      ensures removeCompletely ==> a4af == old(a4af) - {target}
      ensures !removeCompletely ==>
        a4af == old(a4af)[old(reqfile) := Stamp(old(state) != DS_NONEEDEDPARTS, now)] - {target}
    {
      assert q.Linked(this);
      assert target in q.files && target != reqfile && q.Known(this);
      hide *;
      ChangeFile(q, target, removeCompletely, now);
      EnterFile(q, target);
    }

    /** Swaps when there is an acceptable target; no file is lost but, on request, the old one. */
    method SwapToAnotherFile(q: DownloadQueue, ignoreNoNeeded: bool, ignoreSuspensions: bool, removeCompletely: bool,
                             toFile: PartFile?, now: uint32)
      returns (swapped: bool)
      requires q.Valid() && this in q.clients
      modifies `a4af, `state, `reqfile, `partStatus, `nPartCount, `completeSource
      modifies q.files`srcList, q.files`a4afSrcList, q.files`freq
      ensures q.Valid()
      ensures swapped ==> old(reqfile) != null && old(state) != DS_DOWNLOADING
      ensures !swapped && old(reqfile) != null && old(state) != DS_DOWNLOADING ==>
        forall f :: f in old(a4af) && (toFile == null || toFile == f) ==>
          !old(Acceptable(f, a4af[f], ignoreNoNeeded, ignoreSuspensions || toFile != null, now))
      ensures swapped ==> reqfile != null && (toFile == null || toFile == reqfile)
      ensures swapped ==> (var t: PartFile := reqfile;
        t in old(a4af) && old(Acceptable(t, a4af[t], ignoreNoNeeded, ignoreSuspensions || toFile != null, now))
        && (toFile == null ==> old(Best(t, a4af, ignoreNoNeeded, ignoreSuspensions, now))))
      // files with needed parts first, then by priority; the search stops at a file of high priority with needed parts
      ensures swapped && toFile == null ==>
        forall f :: f in old(a4af) && old(Acceptable(f, a4af[f], ignoreNoNeeded, ignoreSuspensions, now))
                    && f.priority < 10 && reqfile.priority < 10 ==>
          && (old(a4af)[f].neededParts ==> old(a4af)[reqfile].neededParts)
          && (old(a4af)[f].neededParts == old(a4af)[reqfile].neededParts ==>
                f.priority <= reqfile.priority || (old(a4af)[reqfile].neededParts && reqfile.priority == 2))
      ensures swapped ==> a4af.Keys == old(a4af.Keys) - {reqfile} + if removeCompletely then {} else {old(reqfile)}
      ensures swapped && !removeCompletely ==> a4af[old(reqfile)] == Stamp(old(state) != DS_NONEEDEDPARTS, now)
      ensures swapped ==> state == DS_NONE && partStatus == [] && nPartCount == reqfile.partCount && !completeSource
      ensures forall g :: g in a4af && g in old(a4af) ==>
        && a4af[g].neededParts == old(a4af)[g].neededParts
        && (a4af[g].timestamp == old(a4af)[g].timestamp
            || (a4af[g].timestamp == 0 && !ignoreSuspensions && Ticks(now, old(a4af)[g].timestamp) >= 900_000))
      ensures !swapped ==> reqfile == old(reqfile) && a4af.Keys == old(a4af.Keys) && partStatus == old(partStatus)
      ensures !swapped ==> state == old(state)
    {
      swapped := false;
      if reqfile == null || state == DS_DOWNLOADING {
        return;
      }
      hide CountedBy, DownloadQueue.CountedFor, DownloadQueue.Asks, DownloadQueue.Related, Acceptable, Best, Rate;
      var target := SwapTargetIn(q, ignoreNoNeeded, ignoreSuspensions, toFile, now);
      if target != null {
        SwapTo(q, target, removeCompletely, now);
        swapped := true;
      }
    }

    method DeleteFileRequest(file: PartFile) returns (deleted: bool)
      modifies `a4af
      ensures a4af == old(a4af) - {file} && (deleted <==> file in old(a4af))
    {
      deleted := file in a4af;
      a4af := a4af - {file};
    }
  }

  class DownloadQueue {
    var fileList: seq<PartFile>
    /** The files of the list. */
    ghost var files: set<PartFile>
    /** The clients of the client list. */
    ghost var clients: set<Client>

    constructor ()
      ensures Valid() && fileList == [] && clients == {}
    {
      fileList, files, clients := [], {}, {};
    }

    // ---- the source relation -------------------------------------------------

    /** The client is in the source set of exactly its request file, and the requests for other files agree. */
    ghost predicate Linked(c: Client)
      reads `files, c`reqfile, c`a4af, files`srcList, files`a4afSrcList
    {
      && (c.reqfile != null ==> c.reqfile in files && c.reqfile !in c.a4af)
      && (c.reqfile == null ==> c.a4af == map[])
      && (forall f :: f in c.a4af ==> f in files)
      && (forall f :: f in files ==> (c in f.srcList <==> c.reqfile == f))
      && (forall f :: f in files ==> (c in f.a4afSrcList <==> f in c.a4af))
    }

    ghost predicate OnlyClients()
      reads `files, `clients, files`srcList, files`a4afSrcList
    {
      forall f :: f in files ==> f.srcList <= clients && f.a4afSrcList <= clients
    }

    /** The same without regard to one client. */
    ghost predicate RelatedBut(c: Client)
      reads `files, `clients, clients`reqfile, clients`a4af, files`srcList, files`a4afSrcList
    {
      OnlyClients() && forall x :: x in clients && x != c ==> Linked(x)
    }

    ghost predicate NowhereIn(c: Client)
      reads `files, files`srcList, files`a4afSrcList
    {
      forall f :: f in files ==> c !in f.srcList && c !in f.a4afSrcList
    }

    ghost predicate Related()
      reads `files, `clients, clients`reqfile, clients`a4af, files`srcList, files`a4afSrcList
    {
      OnlyClients() && forall c :: c in clients ==> Linked(c)
    }

    /** The sets of the files and the other clients' wishes stay, but for one client. */
    twostate predicate OthersStay(c: Client)
      reads `files, `clients, clients`reqfile, clients`a4af, files`srcList, files`a4afSrcList
    {
      && files == old(files) && (clients == old(clients) || clients == old(clients) + {c})
      && (forall f, x :: f in files && x in f.srcList && x != c ==> x in old(f.srcList))
      && (forall f, x :: f in files && x in old(f.srcList) && x != c ==> x in f.srcList)
      && (forall f, x :: f in files && x in f.a4afSrcList && x != c ==> x in old(f.a4afSrcList))
      && (forall f, x :: f in files && x in old(f.a4afSrcList) && x != c ==> x in f.a4afSrcList)
      && (forall x :: x in old(clients) && x != c ==> x.reqfile == old(x.reqfile) && x.a4af.Keys == old(x.a4af.Keys))
    }

    twostate lemma OthersStayLinked(c: Client)
      requires old(RelatedBut(c)) && OthersStay(c)
      requires c in clients || NowhereIn(c)
      ensures RelatedBut(c)
    {
      forall x | x in clients && x != c
        ensures Linked(x)
      {
        assert old(Linked(x));
      }
      assert OnlyClients() by {
        assert old(OnlyClients());
      }
    }

    /** The relation does not look at what a client has of its request file. */
    twostate lemma StaysRelated(c: Client)
      requires old(Related()) && files == old(files) && clients == old(clients)
      requires c.reqfile == old(c.reqfile) && c.a4af == old(c.a4af)
      requires forall f :: f in files ==> f.srcList == old(f.srcList) && f.a4afSrcList == old(f.a4afSrcList)
      requires forall x :: x in clients && x != c ==> x.reqfile == old(x.reqfile) && x.a4af == old(x.a4af)
      ensures Related()
    {
      forall x | x in clients
        ensures Linked(x)
      {
        assert old(Linked(x));
      }
      assert OnlyClients() by {
        assert old(OnlyClients());
      }
    }

    // ---- the part frequencies ------------------------------------------------

    ghost function Asks(): map<Client, Ask>
      reads `clients, clients`reqfile, clients`partStatus
    {
      map c | c in clients :: c.Asking()
    }

    /** A client with parts is one of the client list, and its request file one of the queue. */
    ghost predicate Known(c: Client)
      reads `clients, `files, c`reqfile, c`partStatus
    {
      && (c in clients || c.partStatus == [])
      && (c.reqfile != null ==> c.reqfile in files)
    }

    ghost predicate CountedFor(asks: map<Client, Ask>)
      reads `files, files`freq
    {
      forall f :: f in files ==> CountedBy(f.freq, f, asks)
    }

    ghost predicate Counted()
      reads `files, `clients, clients`reqfile, clients`partStatus, files`freq
    {
      CountedFor(Asks())
    }

    ghost predicate Valid()
      reads this, clients, files
    {
      Listed() && Related() && Counted()
    }

    ghost predicate Listed()
      reads `files, `fileList
    {
      && (forall f :: f in files ==> f in fileList)
      && (forall f :: f in fileList ==> f in files)
    }

    /** A client that can be given its first request file: a listed one that has none, or a new one made for the file. */
    ghost predicate Adoptable(c: Client, sender: PartFile)
      reads `clients, `files, c`reqfile, c`partStatus, c`a4af, files`srcList, files`a4afSrcList
    {
      && IsSource(c) && sender in files
      && (c.reqfile == null || (c !in clients && c.reqfile == sender && c.partStatus == []))
    }

    /** SetRequestFile, for a new client AddClient, and AddSource. */
    method Adopt(sender: PartFile, source: Client)
      requires Valid() && Adoptable(source, sender)
      modifies `clients, source`reqfile, source`partStatus, source`nPartCount, sender`srcList, files`freq
      ensures Valid() && clients == old(clients) + {source} && source.reqfile == sender && source.partStatus == []
      ensures source.nPartCount == if old(source.reqfile) == sender then old(source.nPartCount) else sender.partCount
    {
      assert source in clients ==> Linked(source);
      assert source.a4af == map[] && NowhereIn(source);
      hide CountedBy, CountedFor, Asks, Linked, OnlyClients, Related;
      FirstFile(sender, source);
      FirstSource(sender, source);
    }

    method FirstFile(sender: PartFile, source: Client)
      requires Related() && Counted() && Adoptable(source, sender) && NowhereIn(source)
      modifies `clients, source`reqfile, source`partStatus, source`nPartCount, files`freq
      ensures RelatedBut(source) && Counted() && NowhereIn(source)
      ensures clients == old(clients) + {source} && source.reqfile == sender && source.partStatus == []
      ensures source.nPartCount == if old(source.reqfile) == sender then old(source.nPartCount) else sender.partCount
    {
      hide CountedBy, CountedFor, Asks;
      source.SetRequestFile(this, sender);
      assert source !in clients ==> source.partStatus == [];
      Enlist(source);
      OthersStayLinked(source);
    }

    method FirstSource(sender: PartFile, source: Client)
      requires RelatedBut(source) && source in clients && NowhereIn(source) && sender in files
      requires source.reqfile == sender && source.a4af == map[]
      modifies sender`srcList
      ensures Related()
    {
      sender.srcList := sender.srcList + {source};
      assert Linked(source);
      OthersStayLinked(source);
    }

    method Enlist(source: Client)
      requires Counted() && (source in clients || source.partStatus == [])
      modifies `clients
      ensures Counted() && clients == old(clients) + {source}
    {
      ghost var asks := Asks();
      clients := clients + {source};
      assert Asks() - {source} == asks - {source};
      assert source !in asks ==> asks - {source} == asks;
      assert source in asks ==> Asks() == asks;
      hide CountedBy;
      if source !in asks {
        NoPartsNoCount(source);
      }
    }

    /** Asks a known client for this file, or for this file too. */
    method CheckAndAddKnownSource(sender: PartFile, source: Client, refused: bool)
      requires Valid() && sender in files && source in clients
      modifies `clients, source`reqfile, source`partStatus, source`nPartCount, source`a4af
      modifies sender`srcList, sender`a4afSrcList, files`freq
      ensures Valid() && clients == old(clients)
      ensures if sender.stopped || refused then
                && source.reqfile == old(source.reqfile) && source.a4af == old(source.a4af)
                && source.partStatus == old(source.partStatus) && source.nPartCount == old(source.nPartCount)
              else TakesOn(source, sender)
    {
      if sender.stopped || refused {
        return;
      }
      AskKnown(sender, source);
    }

    /** A client asks for the file, now or later. */
    ghost predicate Serves(c: Client, f: PartFile)
      reads c`reqfile, c`a4af
    {
      c.reqfile == f || f in c.a4af
    }

    /** The request file stays, and the file is among the requests if it is another one. */
    twostate predicate AskedAlso(c: Client, f: PartFile)
      reads c`reqfile, c`a4af, c`partStatus, c`nPartCount
    {
      && c.reqfile == old(c.reqfile) && c.partStatus == old(c.partStatus) && c.nPartCount == old(c.nPartCount)
      && c.a4af == if c.reqfile == f || f in old(c.a4af) then old(c.a4af) else old(c.a4af)[f := Stamp(true, 0)]
    }

    /** A client without a request file takes the file; one that has a request file is asked for it also. */
    twostate predicate TakesOn(c: Client, f: PartFile)
      reads c`reqfile, c`a4af, c`partStatus, c`nPartCount
    {
      if old(c.reqfile) == null then c.reqfile == f && c.a4af == old(c.a4af) && c.partStatus == [] && c.nPartCount == f.partCount
      else AskedAlso(c, f)
    }

    /** A listed client with the same hash that already has a request file. */
    method AskSameHash(sender: PartFile, sameHash: seq<Client>) returns (kept: Client?)
      requires Valid() && sender in files && forall c :: c in sameHash ==> c in clients
      modifies clients`a4af, sender`a4afSrcList
      ensures Valid()
      ensures kept == null ==> forall c :: c in sameHash ==> c.reqfile == null
      ensures kept != null ==> kept in sameHash && kept.reqfile != null && AskedAlso(kept, sender)
      ensures forall c :: c in clients && c != kept ==> c.a4af == old(c.a4af)
    {
      for i := 0 to |sameHash|
        invariant Valid() && forall j :: 0 <= j < i ==> sameHash[j].reqfile == null
        invariant forall c :: c in clients ==> c.a4af == old(c.a4af)
      {
        hide CountedBy, CountedFor, Asks, Related;
        var it := sameHash[i];
        if it.reqfile != null {
          if it.reqfile != sender {
            var added := it.AddRequestForAnotherFile(this, sender);
          }
          return it;
        }
      }
      kept := null;
    }

    /**
     * A new source for a file: refused, or taken over by a client that is known already, or added itself.
     * `sameHash` are the listed clients with its hash; `known` is what AttachToAlreadyKnown finds.
     */
    method CheckAndAddSource(sender: PartFile, source: Client, refused: bool, sameHash: seq<Client>, known: Client?)
      returns (added: bool, kept: Client?)
      requires Valid() && source !in clients && Adoptable(source, sender)
      requires forall c :: c in sameHash ==> c in clients
      requires known != null ==> known in clients
      modifies `clients, source, clients`reqfile, clients`partStatus, clients`nPartCount, clients`a4af
      modifies files`srcList, files`a4afSrcList, files`freq
      ensures Valid()
      ensures kept == null <==> refused || sender.stopped
      // a client with the same hash that has a request file comes first, then the known one, then the new one
      ensures kept != null && !added ==> kept in sameHash && old(kept.reqfile) != null && AskedAlso(kept, sender)
      ensures added ==> forall c :: c in sameHash ==> old(c.reqfile) == null
      ensures added ==> if known != null then kept == known && TakesOn(known, sender)
                        else kept == source && source.reqfile == sender && source.a4af == map[]
      ensures clients == old(clients) + if kept == source then {source} else {}
      ensures kept != source ==> source.reqfile == null && source.a4af == map[] && source.partStatus == []
      ensures forall c :: c in old(clients) && c != kept ==>
                && c.reqfile == old(c.reqfile) && c.a4af == old(c.a4af)
                && c.partStatus == old(c.partStatus) && c.nPartCount == old(c.nPartCount)
    {
      hide CountedBy, CountedFor, Asks, Linked;
      if refused || sender.stopped {
        var removed := RemoveSource(source);
        return false, null;
      }
      kept := AskSameHash(sender, sameHash);
      if kept != null {
        var removed := RemoveSource(source);
        return false, kept;
      }
      added := true;
      if known != null {
        var removed := RemoveSource(source);
        kept := known;
        AskKnown(sender, known);
      } else {
        kept := source;
        Adopt(sender, source);
      }
    }

    method AskKnown(sender: PartFile, known: Client)
      requires Valid() && sender in files && known in clients
      modifies `clients, known`reqfile, known`partStatus, known`nPartCount, known`a4af
      modifies sender`srcList, sender`a4afSrcList, files`freq
      ensures Valid() && clients == old(clients) && TakesOn(known, sender)
    {
      assert Linked(known);
      hide CountedBy, CountedFor, Asks;
      if known.reqfile != null {
        if known.reqfile != sender {
          var added := known.AddRequestForAnotherFile(this, sender);
        }
      } else {
        Adopt(sender, known);
      }
    }

    /** Takes a client out of every file's sets and forgets its requests. */
    method RemoveSource(toremove: Client) returns (removed: bool)
      requires Valid() && IsSource(toremove)
      modifies toremove, files`srcList, files`a4afSrcList, files`freq
      ensures Valid() && IsSource(toremove)
      ensures toremove.reqfile == null && toremove.a4af == map[] && toremove.partStatus == [] && toremove.state == DS_NONE
      ensures removed <==> toremove in clients && old(toremove.reqfile) != null
    {
      assert toremove in clients ==> Linked(toremove);
      hide CountedBy, CountedFor, Asks, Linked;
      removed := Unlink(toremove);
      toremove.StopAsking(this);
      NowLinked(toremove);
    }

    lemma NowLinked(c: Client)
      requires RelatedBut(c) && NowhereIn(c) && c.reqfile == null && c.a4af == map[]
      ensures Related()
    {
      assert Linked(c);
    }

    method Unlink(toremove: Client) returns (removed: bool)
      requires Listed() && Related() && (toremove in clients || NowhereIn(toremove))
      modifies toremove`a4af, files`srcList, files`a4afSrcList
      ensures RelatedBut(toremove) && NowhereIn(toremove) && toremove.a4af == map[]
      ensures removed <==> toremove in clients && toremove.reqfile != null
    {
      assert toremove in clients ==> Linked(toremove);
      toremove.a4af := map[];
      removed := DropFromFiles(toremove);
      OthersStayLinked(toremove);
    }

    // ---- giving a file up --------------------------------------------------------

    /** A source that had to go: swapped to another file it was asked for, or, if that is not wanted or not possible, dropped. */
    twostate predicate Dropped(c: Client, tryToSwap: bool, now: uint32)
      reads c`reqfile, c`a4af, c`partStatus, c`state
    {
      && c.partStatus == [] && c.state == DS_NONE
      && var f := c.reqfile;
         if f != null then
           && tryToSwap && old(c.state) != DS_DOWNLOADING && c.a4af.Keys == old(c.a4af.Keys) - {f}
           && f in old(c.a4af) && old(!f.stopped && f.ready)
         else
           && c.a4af == map[]
           && (tryToSwap ==> old(c.state) == DS_DOWNLOADING
                             || forall g :: g in old(c.a4af) ==> !old(c.Acceptable(g, c.a4af[g], true, true, now)))
    }

    /** Swaps a source away from the file, or drops it. */
    method DropSource(file: PartFile, c: Client, tryToSwap: bool, now: uint32)
      requires Valid() && file in files && c in file.srcList
      modifies c, files`srcList, files`a4afSrcList, files`freq
      ensures Valid() && Dropped(c, tryToSwap, now)
      ensures file.srcList == old(file.srcList) - {c}
    {
      SourcesAreAskers(file);
      assert Linked(c);
      hide CountedBy, CountedFor, Asks, Related, Linked, Dropped;
      SwapOrRemove(c, tryToSwap, now);
      SourcesAreAskers(file);
    }

    method SwapOrRemove(c: Client, tryToSwap: bool, now: uint32)
      requires Valid() && c in clients && c.reqfile != null
      modifies c, files`srcList, files`a4afSrcList, files`freq
      ensures Valid() && Dropped(c, tryToSwap, now) && c.reqfile != old(c.reqfile)
    {
      assert Linked(c);
      hide CountedBy, CountedFor, Asks, Related, Linked, Client.Acceptable;
      var swapped := false;
      if tryToSwap {
        swapped := c.SwapToAnotherFile(this, true, true, true, null, now);
      }
      if !swapped {
        var removed := RemoveSource(c);
      }
    }

    ghost function Askers(file: PartFile): set<Client>
      reads `clients, clients`reqfile
    {
      set c | c in clients && c.reqfile == file
    }

    lemma SourcesAreAskers(file: PartFile)
      requires Related() && file in files
      ensures file.srcList == Askers(file)
    {
      forall c
        ensures c in file.srcList <==> c in Askers(file)
      {
        if c in clients {
          assert Linked(c);
        }
      }
    }

    /** The loop over the clients that were asked for the file too. */
    method ForgetFile(file: PartFile)
      modifies file.a4afSrcList`a4af
      ensures forall c :: c in file.a4afSrcList ==> c.a4af == old(c.a4af) - {file}
    {
      var rest := file.a4afSrcList;
      while rest != {}
        invariant rest <= file.a4afSrcList
        invariant forall c :: c in file.a4afSrcList ==> c.a4af == if c in rest then old(c.a4af) else old(c.a4af) - {file}
        decreases rest
      {
        var c :| c in rest;
        rest := rest - {c};
        var deleted := c.DeleteFileRequest(file);
      }
    }

    method ClearRequests(file: PartFile)
      requires Related() && file in files
      modifies clients`a4af, file`a4afSrcList
      ensures file.a4afSrcList == {}
      ensures forall c :: c in clients ==> c.a4af == old(c.a4af) - {file}
    {
      forall c | c in clients && c !in file.a4afSrcList
        ensures c.a4af == c.a4af - {file}
      {
        assert Linked(c);
      }
      assert OnlyClients();
      hide Related, Linked, OnlyClients;
      ForgetFile(file);
      file.a4afSrcList := {};
    }

    /** Forgets every request for the file. */
    method DropRequests(file: PartFile)
      requires Valid() && file in files
      modifies clients`a4af, file`a4afSrcList
      ensures Valid() && file.a4afSrcList == {}
      ensures forall c :: c in clients ==> c.a4af == old(c.a4af) - {file}
    {
      hide Counted, OnlyClients;
      label Before:
      ClearRequests(file);
      forall c | c in clients
        ensures Linked(c)
      {
        assert old@Before(Linked(c));
      }
      assert OnlyClients() by {
        assert old@Before(OnlyClients());
        ClearedOnlyClients@Before(file);
      }
    }

    twostate lemma ClearedOnlyClients(file: PartFile)
      requires old(OnlyClients()) && files == old(files) && clients == old(clients) && file.a4afSrcList == {}
      requires forall f :: f in files ==> f.srcList == old(f.srcList) && (f != file ==> f.a4afSrcList == old(f.a4afSrcList))
      ensures OnlyClients()
    {
    }

    /** The loop over the sources of a file. */
    method DropSources(file: PartFile, tryToSwap: bool, now: uint32)
      requires Valid() && file in files
      modifies clients, files`srcList, files`a4afSrcList, files`freq
      ensures Valid() && file.srcList == {}
      ensures forall c :: c in clients && c in old(file.srcList) ==> Dropped(c, tryToSwap, now)
      ensures forall c :: c in clients && c !in old(file.srcList) ==>
        && c.reqfile == old(c.reqfile) && c.a4af == old(c.a4af)
        && c.partStatus == old(c.partStatus) && c.state == old(c.state)
    {
      hide CountedBy, CountedFor, Asks;
      while file.srcList != {}
        invariant Valid() && file.srcList <= old(file.srcList)
        invariant forall c :: c in clients ==>
          if c in file.srcList || c !in old(file.srcList) then c.reqfile == old(c.reqfile) && c.a4af == old(c.a4af)
                && c.state == old(c.state) && c.partStatus == old(c.partStatus)
          else Dropped(c, tryToSwap, now)
        decreases file.srcList
      {
        var c :| c in file.srcList;
        DropSource(file, c, tryToSwap, now);
      }
    }

    /** Afterwards no client is a source of the file, nor asked for it later. */
    method RemoveAllSources(file: PartFile, tryToSwap: bool, now: uint32)
      requires Valid() && file in files
      modifies clients, files`srcList, files`a4afSrcList, files`freq
      ensures Valid() && file.srcList == {} && file.a4afSrcList == {}
      ensures forall c :: c in clients ==> !Serves(c, file)
      ensures forall c :: c in clients ==>
        if c in old(file.srcList) then Dropped(c, tryToSwap, now)
        else
          && c.reqfile == old(c.reqfile) && c.a4af == old(c.a4af) - {file}
          && c.partStatus == old(c.partStatus) && c.state == old(c.state)
    {
      hide CountedBy, CountedFor, Asks;
      DropSources(file, tryToSwap, now);
      DropRequests(file);
    }

    /** The loop over the files of the queue. */
    method DropFromFiles(toremove: Client) returns (removed: bool)
      requires Listed()
      modifies files`srcList, files`a4afSrcList
      ensures forall f :: f in files ==> f.srcList == old(f.srcList) - {toremove}
      ensures forall f :: f in files ==> f.a4afSrcList == old(f.a4afSrcList) - {toremove}
      ensures removed <==> exists f :: f in files && toremove in old(f.srcList)
    {
      removed := false;
      for i := 0 to |fileList|
        invariant forall j :: 0 <= j < i ==> fileList[j].srcList == old(fileList[j].srcList) - {toremove}
        invariant forall j :: 0 <= j < i ==> fileList[j].a4afSrcList == old(fileList[j].a4afSrcList) - {toremove}
        invariant forall f :: f in files && f !in fileList[..i] ==> f.srcList == old(f.srcList) && f.a4afSrcList == old(f.a4afSrcList)
        invariant removed <==> exists j :: 0 <= j < i && toremove in old(fileList[j].srcList)
      {
        var file := fileList[i];
        if toremove in file.srcList {
          removed := true;
        }
        file.srcList := file.srcList - {toremove};
        file.a4afSrcList := file.a4afSrcList - {toremove};
      }
    }

    /** One of the client list, or a new one that requests a file of the queue but is nowhere yet. */
    ghost predicate IsSource(c: Client)
      reads `clients, `files, c`reqfile, c`partStatus, c`a4af, files`srcList, files`a4afSrcList
    {
      Known(c) && (c !in clients ==> c.a4af == map[] && NowhereIn(c))
    }

    lemma OthersDoNotCount(c: Client)
      requires Known(c)
      ensures Stands(Asks(), c, c.Asking())
      ensures forall f :: f in files && f != c.reqfile ==>
        (CountedBy(f.freq, f, Asks()) <==> CountedBy(f.freq, f, Asks() - {c}))
    {
      hide CountedBy;
      forall f | f in files && f != c.reqfile
        ensures CountedBy(f.freq, f, Asks()) <==> CountedBy(f.freq, f, Asks() - {c})
      {
        DoesNotCount(f.freq, f, Asks(), c, c.Asking());
      }
    }

    lemma NoPartsNoCount(c: Client)
      requires c.partStatus == []
      ensures CountedFor(Asks() - {c}) <==> Counted()
    {
      hide CountedBy;
      forall f | f in files
        ensures CountedBy(f.freq, f, Asks()) <==> CountedBy(f.freq, f, Asks() - {c})
      {
        DoesNotCount(f.freq, f, Asks(), c, c.Asking());
      }
    }
  }
}
