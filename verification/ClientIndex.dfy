/** CClientList: three multimaps that follow the attributes of the listed clients. */
module ClientIndex {
  import opened Words
  import opened Multimap

  datatype State = CS_NEW | CS_LISTED | CS_DYING

  /** An I2P destination: its 32-bit hash code, and whether it is tagged valid. */
  datatype Address = Address(hash: uint32, valid: bool)
  {
    /** The index tests `hash` when it inserts and `valid` when it erases. */
    predicate Sound() {
      valid <==> hash != 0
    }
  }

  /** A public key of 384 bytes and a certificate of three. */
  type Destination = b: seq<uint8> | |b| == 387 witness seq(387, _ => 0)

  /** The first four bytes, lowest first. */
  function HashCode(b: Destination): uint32 {
    b[0] as nat + 0x100 * (b[1] as nat + 0x100 * (b[2] as nat + 0x100 * b[3] as nat))
  }

  lemma DigitTells(a: uint8, x: nat, b: uint8, y: nat)
    ensures a as nat + 0x100 * x == b as nat + 0x100 * y <==> a == b && x == y
  {
  }

  lemma HashCodeTells(a: Destination, b: Destination)
    ensures HashCode(a) == HashCode(b) <==> a[0] == b[0] && a[1] == b[1] && a[2] == b[2] && a[3] == b[3]
    ensures HashCode(a) == 0 <==> a[0] == a[1] == a[2] == a[3] == 0
  {
    var a1, b1 := a[2] as nat + 0x100 * a[3] as nat, b[2] as nat + 0x100 * b[3] as nat;
    var a0, b0 := a[1] as nat + 0x100 * a1, b[1] as nat + 0x100 * b1;
    DigitTells(a[0], a0, b[0], b0);
    DigitTells(a[1], a1, b[1], b1);
    DigitTells(a[2], a[3], b[2], b[3]);
  }

  /** CI2PAddress::readBytes: anything but a null certificate is refused with an exception. */
  function ReadAddress(b: Destination): Option<Address> {
    if b[384] == b[385] == b[386] == 0 then Some(Address(HashCode(b), HashCode(b) != 0)) else None
  }

  /** Destinations are one and the same to the index exactly when their first four bytes agree, and
      every address that was read keeps the index sound. */
  lemma ReadAddressTells(a: Destination, b: Destination)
    requires ReadAddress(a).Some? && ReadAddress(b).Some?
    ensures ReadAddress(a) == ReadAddress(b) <==> a[..4] == b[..4]
    ensures ReadAddress(a).value.Sound() && (ReadAddress(a).value.valid <==> a[..4] != [0, 0, 0, 0])
  {
    HashCodeTells(a, b);
    hide HashCode;
    assert a[..4] == [a[0], a[1], a[2], a[3]] && b[..4] == [b[0], b[1], b[2], b[3]];
  }

  /** What the index needs of a client; a user hash of 0 is the empty one. */
  class Client {
    var state: State
    var id: uint32
    var dest: Address
    var connectDest: Address
    var udpDest: uint32
    var port: uint16
    var userHash: nat
    var hasValidHash: bool
    var socket: Option<nat>
    var connected: bool
    var identified: bool
    var banned: bool

    ghost predicate Valid()
      reads this
    {
      dest.Sound() && (hasValidHash <==> userHash != 0)
    }

    /** How another client matches: by destination, then by ID, then by hash; 5 is not at all. */
    function Rank(c: Client): nat
      reads this, c
    {
      var through := Through(port, udpDest, c);
      var known := dest.hash != 0 || udpDest != 0;
      if dest.hash != 0 && c.dest.hash == dest.hash && through < 2 then through
      else if known && id != 0 && c.id == id && through < 2 then 2 + through
      else if hasValidHash && c.userHash == userHash then 4
      else 5
    }

    /** What the rank of another client says, criterion by criterion. */
    lemma RankTells(c: Client)
      requires Valid()
      ensures var there, same := dest.hash != 0 && c.dest.hash == dest.hash,
                                 id != 0 && c.id == id && (dest.hash != 0 || udpDest != 0);
              var byPort, byKad := port != 0 && c.port == port, udpDest != 0 && c.udpDest == udpDest;
              && (Rank(c) == 0 <==> there && byPort)
              && (Rank(c) <= 1 <==> there && (byPort || byKad))
              && (Rank(c) <= 2 <==> (there && (byPort || byKad)) || (same && byPort))
              && (Rank(c) <= 3 <==> (there || same) && (byPort || byKad))
              && (Rank(c) <= 4 <==> ((there || same) && (byPort || byKad)) || (userHash != 0 && c.userHash == userHash))
              && Rank(c) <= 5
    {
    }

    constructor ()
      ensures Valid() && state == CS_NEW && id == udpDest == port == userHash == 0
      ensures dest == connectDest == Address(0, false) && socket.None? && !connected && !identified && !banned
    {
      state, id, dest, connectDest, udpDest, port := CS_NEW, 0, Address(0, false), Address(0, false), 0, 0;
      userHash, hasValidHash, socket, connected, identified, banned := 0, false, None, false, false, false;
    }

    method SetUserIDHybrid(list: ClientList, userID: uint32)
      requires list.Valid() && list.Knows(this)
      modifies `id, list`byId
      ensures list.Valid() && id == userID
    {
      list.FiledAlready(this);
      hide Represents, ClientList.IdKeys, ClientList.DestKeys, ClientList.HashKeys, ClientList.Filed;
      list.UpdateClientID(this, userID);
      id := userID;
      list.OneClientChanged(this);
    }

    method SetTCPDest(list: ClientList, val: Address)
      requires list.Valid() && list.Knows(this) && Valid() && val.Sound()
      modifies `dest, `connectDest, list`byDest
      ensures list.Valid() && Valid() && dest == val && connectDest == val
    {
      list.FiledAlready(this);
      hide Represents, ClientList.IdKeys, ClientList.DestKeys, ClientList.HashKeys, ClientList.Filed;
      list.UpdateClientIP(this, val.hash);
      dest := val;
      connectDest := val;
      assert Valid();
      hide Client.Valid;
      list.OneClientChanged(this);
    }

    /** The end of a hello packet: the client is entered under the destination of its socket's peer,
        and stays where it is when that is refused. */
    method TakePeer(list: ClientList, peer: Destination) returns (taken: bool)
      requires list.Valid() && list.Knows(this) && Valid()
      modifies `dest, `connectDest, list`byDest
      ensures list.Valid() && Valid()
      ensures taken <==> peer[384..] == [0, 0, 0]
      ensures taken ==> dest == connectDest && (dest.valid <==> peer[..4] != [0, 0, 0, 0]) && dest.hash == HashCode(peer)
      ensures !taken ==> unchanged(this) && unchanged(list)
    {
      assert peer[384..] == [peer[384], peer[385], peer[386]];
      var address := ReadAddress(peer);
      if address.None? {
        return false;
      }
      ReadAddressTells(peer, peer);
      hide HashCode;
      SetTCPDest(list, address.value);
      taken := true;
    }

    method SetUserHash(list: ClientList, hash: nat)
      requires list.Valid() && list.Knows(this) && Valid()
      modifies `userHash, `hasValidHash, list`byHash
      ensures list.Valid() && Valid() && userHash == hash
    {
      list.FiledAlready(this);
      hide Represents, ClientList.IdKeys, ClientList.DestKeys, ClientList.HashKeys, ClientList.Filed;
      list.UpdateClientHash(this, hash);
      userHash := hash;
      hasValidHash := userHash != 0;
      assert Valid();
      hide Client.Valid;
      list.OneClientChanged(this);
    }

    /** In the main thread; `cleared` when DeleteAll has emptied two of the indexes. */
    method SafeDelete(list: ClientList, ghost cleared: bool)
      requires list.Indexed(cleared) && list.Knows(this) && Valid()
      modifies `state, `socket, list`byId, list`byDest, list`byHash
      ensures list.Indexed(cleared) && Valid()
      ensures state == CS_DYING && socket == if old(state) == CS_DYING then old(socket) else None
      ensures list.IdKeys() == old(list.IdKeys()) - {this}
    {
      hide Represents;
      ghost var ids, dests, hashes := list.IdKeys(), list.DestKeys(), list.HashKeys();
      if state == CS_DYING {
        assert ids - {this} == ids;
        return;
      }
      assert this in dests ==> this in ids && dests[this] == dest.hash != 0;
      assert this in hashes ==> this in ids && hashes[this] == userHash != 0;
      assert this in ids ==> ids[this] == id;
      state := CS_DYING;
      socket := None;
      list.RemoveClient(this, cleared, ids, dests, hashes);
      list.OneClientChanged(this);
    }
  }

  class ClientList {
    var byId: map<nat, seq<Client>>
    var byDest: map<nat, seq<Client>>
    var byHash: map<nat, seq<Client>>
    /** Every client that was ever added. */
    ghost var clients: set<Client>

    /** A client that is listed is listed here. */
    ghost predicate Knows(c: Client)
      reads `clients, c`state
    {
      c.state == CS_LISTED ==> c in clients
    }

    ghost function IdKeys(): map<Client, nat>
      reads `clients, clients`state, clients`id
    {
      map c | c in clients && c.state == CS_LISTED :: c.id
    }

    ghost function DestKeys(): map<Client, nat>
      reads `clients, clients`state, clients`dest
    {
      map c | c in clients && c.state == CS_LISTED && c.dest.hash != 0 :: c.dest.hash
    }

    ghost function HashKeys(): map<Client, nat>
      reads `clients, clients`state, clients`userHash
    {
      map c | c in clients && c.state == CS_LISTED && c.userHash != 0 :: c.userHash
    }

    ghost predicate ClientsValid()
      reads `clients, clients
    {
      forall c :: c in clients ==> c.Valid()
    }

    ghost predicate Indexed(cleared: bool)
      reads this, clients
    {
      && ClientsValid()
      && Represents(byId, IdKeys())
      && (if cleared then byDest == map[] && byHash == map[]
          else Represents(byDest, DestKeys()) && Represents(byHash, HashKeys()))
    }

    /** Every listed client stands once under its ID, and once under its valid destination and hash; nothing else does. */
    ghost predicate Valid()
      reads this, clients
    {
      Indexed(false)
    }

    ghost function Filed(keys: map<Client, nat>, c: Client, k: nat, present: bool): map<Client, nat> {
      if present then keys[c := k] else keys - {c}
    }

    /** Nothing the index reads changed, but for one client that may have come in. */
    twostate predicate OnlyChanged(c: Client)
      reads this, clients
    {
      && (clients == old(clients) || clients == old(clients) + {c})
      && forall x :: x in old(clients) && x != c ==>
           x.state == old(x.state) && x.id == old(x.id) && x.dest == old(x.dest) && x.userHash == old(x.userHash)
    }

    twostate lemma IdKeysChanged(c: Client)
      requires OnlyChanged(c)
      ensures IdKeys() == Filed(old(IdKeys()), c, c.id, c in clients && c.state == CS_LISTED)
    {
    }

    twostate lemma DestKeysChanged(c: Client)
      requires OnlyChanged(c)
      ensures DestKeys() == Filed(old(DestKeys()), c, c.dest.hash, c in clients && c.state == CS_LISTED && c.dest.hash != 0)
    {
    }

    twostate lemma HashKeysChanged(c: Client)
      requires OnlyChanged(c)
      ensures HashKeys() == Filed(old(HashKeys()), c, c.userHash, c in clients && c.state == CS_LISTED && c.userHash != 0)
    {
    }

    /** When one client changes or comes in, only its own entries do. */
    twostate lemma OneClientChanged(c: Client)
      requires OnlyChanged(c)
      ensures IdKeys() == Filed(old(IdKeys()), c, c.id, c in clients && c.state == CS_LISTED)
      ensures DestKeys() == Filed(old(DestKeys()), c, c.dest.hash, c in clients && c.state == CS_LISTED && c.dest.hash != 0)
      ensures HashKeys() == Filed(old(HashKeys()), c, c.userHash, c in clients && c.state == CS_LISTED && c.userHash != 0)
    {
      IdKeysChanged(c);
      DestKeysChanged(c);
      HashKeysChanged(c);
      hide *;
    }

    /** A client is filed under its own keys. */
    lemma FiledAlready(c: Client)
      ensures Filed(IdKeys(), c, c.id, c in clients && c.state == CS_LISTED) == IdKeys()
      ensures Filed(DestKeys(), c, c.dest.hash, c in clients && c.state == CS_LISTED && c.dest.hash != 0) == DestKeys()
      ensures Filed(HashKeys(), c, c.userHash, c in clients && c.state == CS_LISTED && c.userHash != 0) == HashKeys()
    {
    }

    constructor ()
      ensures Valid() && clients == {}
    {
      byId, byDest, byHash, clients := map[], map[], map[], {};
    }

    method AddClient(toadd: Client)
      requires Valid() && Knows(toadd) && toadd.Valid()
      modifies this, toadd`state
      ensures Valid() && Knows(toadd)
      ensures toadd.state == if old(toadd.state) == CS_NEW then CS_LISTED else old(toadd.state)
      ensures clients == old(clients) + if old(toadd.state) == CS_NEW then {toadd} else {}
    {
      hide Represents;
      if toadd.state == CS_NEW {
        ghost var ids, dests, hashes := IdKeys(), DestKeys(), HashKeys();
        hide IdKeys, DestKeys, HashKeys, ClientsValid, Filed, Client.Valid;
        Enlist(toadd);
        FileEverywhere(toadd, ids, dests, hashes);
      }
    }

    method Enlist(toadd: Client)
      requires ClientsValid() && toadd.Valid() && toadd.state == CS_NEW
      modifies `clients, toadd`state
      ensures ClientsValid() && clients == old(clients) + {toadd} && toadd.state == CS_LISTED
      ensures toadd !in old(IdKeys()) && toadd !in old(DestKeys()) && toadd !in old(HashKeys())
      ensures IdKeys() == Filed(old(IdKeys()), toadd, toadd.id, true)
      ensures DestKeys() == Filed(old(DestKeys()), toadd, toadd.dest.hash, toadd.dest.hash != 0)
      ensures HashKeys() == Filed(old(HashKeys()), toadd, toadd.userHash, toadd.userHash != 0)
    {
      toadd.state := CS_LISTED;
      clients := clients + {toadd};
      OneClientChanged(toadd);
      hide IdKeys, DestKeys, HashKeys;
    }

    /** The ID always, the destination and the hash if they are valid. */
    method FileEverywhere(toadd: Client, ghost ids: map<Client, nat>, ghost dests: map<Client, nat>,
                          ghost hashes: map<Client, nat>)
      requires toadd.Valid() && toadd !in ids && toadd !in dests && toadd !in hashes
      requires Represents(byId, ids) && Represents(byDest, dests) && Represents(byHash, hashes)
      modifies `byId, `byDest, `byHash
      ensures Represents(byId, Filed(ids, toadd, toadd.id, true))
      ensures Represents(byDest, Filed(dests, toadd, toadd.dest.hash, toadd.dest.hash != 0))
      ensures Represents(byHash, Filed(hashes, toadd, toadd.userHash, toadd.userHash != 0))
    {
      hide Represents;
      assert dests - {toadd} == dests && hashes - {toadd} == hashes;
      InsertRepresents(byId, ids, toadd.id, toadd);
      byId := Insert(byId, toadd.id, toadd);
      if toadd.dest.hash != 0 {
        InsertRepresents(byDest, dests, toadd.dest.hash, toadd);
        byDest := Insert(byDest, toadd.dest.hash, toadd);
      }
      if toadd.hasValidHash {
        InsertRepresents(byHash, hashes, toadd.userHash, toadd);
        byHash := Insert(byHash, toadd.userHash, toadd);
      }
    }

    method RemoveIDFromList(client: Client, ghost ids: map<Client, nat>) returns (result: bool)
      requires Represents(byId, ids) && (client in ids ==> ids[client] == client.id)
      modifies `byId
      ensures Represents(byId, ids - {client}) && (result <==> client in ids)
    {
      assert client !in ids ==> ids - {client} == ids;
      byId, result := Erase(byId, client.id, client, ids);
    }

    method RemoveIPFromList(client: Client, ghost dests: map<Client, nat>)
      requires Represents(byDest, dests) && (client in dests ==> client.dest.valid && dests[client] == client.dest.hash)
      modifies `byDest
      ensures Represents(byDest, dests - {client})
    {
      hide Represents;
      assert client !in dests ==> dests - {client} == dests;
      if !client.dest.valid {
        return;
      }
      var found;
      byDest, found := Erase(byDest, client.dest.hash, client, dests);
    }

    method RemoveHashFromList(client: Client, ghost hashes: map<Client, nat>)
      requires Represents(byHash, hashes) && (client in hashes ==> client.hasValidHash && hashes[client] == client.userHash)
      modifies `byHash
      ensures Represents(byHash, hashes - {client})
    {
      hide Represents;
      assert client !in hashes ==> hashes - {client} == hashes;
      if !client.hasValidHash {
        return;
      }
      var found;
      byHash, found := Erase(byHash, client.userHash, client, hashes);
    }

    method RemoveClient(client: Client, ghost cleared: bool, ghost ids: map<Client, nat>,
                        ghost dests: map<Client, nat>, ghost hashes: map<Client, nat>)
      requires Represents(byId, ids) && client.Valid()
      requires if cleared then byDest == map[] && byHash == map[]
               else Represents(byDest, dests) && Represents(byHash, hashes)
      requires client in ids ==> ids[client] == client.id
      requires client in dests ==> client in ids && dests[client] == client.dest.hash != 0
      requires client in hashes ==> client in ids && hashes[client] == client.userHash != 0
      modifies `byId, `byDest, `byHash
      ensures Represents(byId, ids - {client})
      ensures if cleared then byDest == map[] && byHash == map[]
              else Represents(byDest, dests - {client}) && Represents(byHash, hashes - {client})
    {
      hide Represents;
      assert client !in ids ==> dests - {client} == dests && hashes - {client} == hashes;
      var known := RemoveIDFromList(client, ids);
      if known {
        if cleared {
          EmptyRepresents<nat, Client>();
        }
        ghost var inDest, inHash := if cleared then map[] else dests, if cleared then map[] else hashes;
        RemoveIPFromList(client, inDest);
        RemoveHashFromList(client, inHash);
        if cleared {
          assert inDest - {client} == map[] && inHash - {client} == map[];
          OnlyEmptyRepresents(byDest, inDest - {client});
          OnlyEmptyRepresents(byHash, inHash - {client});
        }
      }
    }

    /** Files the client under an ID it is about to take. */
    method UpdateClientID(client: Client, newID: uint32)
      requires Represents(byId, IdKeys()) && Knows(client)
      modifies `byId
      ensures Represents(byId, Filed(IdKeys(), client, newID, client.state == CS_LISTED))
    {
      hide Represents;
      ghost var ids := IdKeys();
      if client.state != CS_LISTED || client.id == newID {
        assert Filed(ids, client, newID, client.state == CS_LISTED) == ids;
        return;
      }
      var known := RemoveIDFromList(client, ids);
      assert (ids - {client})[client := newID] == ids[client := newID];
      InsertRepresents(byId, ids - {client}, newID, client);
      byId := Insert(byId, newID, client);
    }

    method UpdateClientIP(client: Client, newIP: uint32)
      requires Represents(byDest, DestKeys()) && Knows(client) && client.Valid()
      modifies `byDest
      ensures Represents(byDest, Filed(DestKeys(), client, newIP, client.state == CS_LISTED && newIP != 0))
    {
      hide Represents;
      ghost var dests := DestKeys();
      if client.state != CS_LISTED || client.dest.hash == newIP {
        assert Filed(dests, client, newIP, client.state == CS_LISTED && newIP != 0) == dests;
        return;
      }
      RemoveIPFromList(client, dests);
      if newIP != 0 {
        assert (dests - {client})[client := newIP] == dests[client := newIP];
        InsertRepresents(byDest, dests - {client}, newIP, client);
        byDest := Insert(byDest, newIP, client);
      }
    }

    method UpdateClientHash(client: Client, newHash: nat)
      requires Represents(byHash, HashKeys()) && Knows(client) && client.Valid()
      modifies `byHash
      ensures Represents(byHash, Filed(HashKeys(), client, newHash, client.state == CS_LISTED && newHash != 0))
    {
      hide Represents;
      ghost var hashes := HashKeys();
      if client.state != CS_LISTED || client.userHash == newHash {
        assert Filed(hashes, client, newHash, client.state == CS_LISTED && newHash != 0) == hashes;
        return;
      }
      RemoveHashFromList(client, hashes);
      if newHash != 0 {
        assert (hashes - {client})[client := newHash] == hashes[client := newHash];
        InsertRepresents(byHash, hashes - {client}, newHash, client);
        byHash := Insert(byHash, newHash, client);
      }
    }

    method DeleteFirst()
      requires Indexed(true) && byId != map[]
      modifies `byId, `byDest, `byHash, clients`state, clients`socket
      ensures Indexed(true) && IdKeys().Keys < old(IdKeys().Keys)
      ensures forall c :: c in clients ==> c.state == if c in IdKeys() then CS_LISTED
                                                      else if old(c.state) == CS_LISTED then CS_DYING else old(c.state)
      ensures forall c :: c in clients ==> c.socket == if c.state == old(c.state) then old(c.socket) else None
    {
      var first :| first in byId;
      BucketIsExact(byId, IdKeys(), first);
      var c := byId[first][0];
      assert c in Bucket(byId, first);
      hide Represents;
      c.SafeDelete(this, true);
    }

    /** Deletes every client that is listed. */
    method DeleteAll()
      requires Valid()
      modifies `byId, `byDest, `byHash, clients`state, clients`socket
      ensures Valid() && byId == map[] && byDest == map[] && byHash == map[]
      ensures forall c :: c in clients ==> c.state == if old(c.state) == CS_LISTED then CS_DYING else old(c.state)
      ensures forall c :: c in clients ==> c.socket == if old(c.state) == CS_LISTED then None else old(c.socket)
    {
      byDest, byHash := map[], map[];
      hide Represents;
      while byId != map[]
        invariant Indexed(true)
        invariant forall c :: c in clients ==> c.state == old(c.state) || (old(c.state) == CS_LISTED && c.state == CS_DYING)
        invariant forall c :: c in clients ==> c.socket == if c.state == old(c.state) then old(c.socket) else None
        decreases IdKeys().Keys
      {
        DeleteFirst();
      }
      NothingListed();
    }

    lemma NothingListed()
      requires Indexed(true) && byId == map[]
      ensures Valid() && forall c :: c in clients ==> c.state != CS_LISTED
    {
      forall c | c in clients
        ensures c.state != CS_LISTED
      {
        if c.state == CS_LISTED {
          assert c in IdKeys();
          BucketIsExact(byId, IdKeys(), c.id);
        }
      }
      assert DestKeys() == map[] && HashKeys() == map[];
      EmptyRepresents<nat, Client>();
    }

    // ---- looking up ----------------------------------------------------------

    ghost predicate Listed(c: Client)
      reads `clients, c`state
    {
      c in clients && c.state == CS_LISTED
    }

    lemma DestBucket(ip: nat)
      requires Valid()
      ensures forall c :: c in Bucket(byDest, ip) <==> c in clients && c.state == CS_LISTED && ip != 0 && c.dest.hash == ip
    {
      BucketIsExact(byDest, DestKeys(), ip);
    }

    lemma IdBucket(id: nat)
      requires Valid()
      ensures forall c :: c in Bucket(byId, id) <==> c in clients && c.state == CS_LISTED && c.id == id
    {
      BucketIsExact(byId, IdKeys(), id);
    }

    lemma HashBucket(hash: nat)
      requires Valid()
      ensures forall c :: c in Bucket(byHash, hash) <==> c in clients && c.state == CS_LISTED && hash != 0 && c.userHash == hash
    {
      BucketIsExact(byHash, HashKeys(), hash);
    }

    /** Finds a client at a destination exactly when a scan of all clients would; none is ever at destination 0. */
    method FindClientByIP(ip: uint32) returns (r: Client?)
      requires Valid()
      ensures r == null <==> ip == 0 || forall c :: c in clients && c.state == CS_LISTED ==> c.dest.hash != ip
      ensures r != null ==> Listed(r) && r.dest.hash == ip
    {
      DestBucket(ip);
      hide Valid;
      var range := Bucket(byDest, ip);
      if range != [] {
        assert range[0] in range;
        return range[0];
      }
      return null;
    }

    method FindClientByIPAndPort(ip: uint32, port: uint16) returns (r: Client?)
      requires Valid()
      ensures r == null <==> ip == 0 || forall c :: c in clients && c.state == CS_LISTED ==> !(c.dest.hash == ip && c.port == port)
      ensures r != null ==> Listed(r) && r.dest.hash == ip && r.port == port
    {
      DestBucket(ip);
      hide Valid;
      var range := Bucket(byDest, ip);
      var i := 0;
      while i < |range|
        invariant 0 <= i <= |range| && forall j :: 0 <= j < i ==> range[j].port != port
      {
        if range[i].port == port {
          assert range[i] in range;
          return range[i];
        }
        i := i + 1;
      }
      return null;
    }

    // ---- matching ------------------------------------------------------------

    /** The client of a range to prefer: the same port, else the same Kad destination. */
    method FindInRange(range: seq<Client>, userPort: uint16, userKadDest: uint32) returns (r: Client?)
      ensures r != null ==> r in range && Through(userPort, userKadDest, r) < 2
      ensures forall c :: c in range ==>
        if r == null then Through(userPort, userKadDest, c) == 2
        else Through(userPort, userKadDest, r) <= Through(userPort, userKadDest, c)
    {
      if userPort != 0 {
        for i := 0 to |range|
          invariant forall j :: 0 <= j < i ==> range[j].port != userPort
        {
          if userPort == range[i].port {
            return range[i];
          }
        }
      }
      if userKadDest != 0 {
        for i := 0 to |range|
          invariant forall j :: 0 <= j < i ==> range[j].udpDest != userKadDest
        {
          if userKadDest == range[i].udpDest {
            return range[i];
          }
        }
      }
      return null;
    }

    /** The listed client that matches best, if any does. */
    method FindMatchingClient(client: Client) returns (r: Client?)
      requires Valid() && client.Valid()
      ensures r != null ==> Listed(r) && client.Rank(r) < 5
      ensures forall c :: c in clients && c.state == CS_LISTED ==>
        if r == null then client.Rank(c) == 5 else client.Rank(r) <= client.Rank(c)
    {
      var userDest, userID, userPort, userKadDest := client.dest.hash, client.id, client.port, client.udpDest;
      DestBucket(userDest);
      IdBucket(userID);
      HashBucket(client.userHash);
      hide Valid, Represents;
      if userDest != 0 || userKadDest != 0 {
        if userDest != 0 {
          r := FindInRange(Bucket(byDest, userDest), userPort, userKadDest);
          if r != null {
            return;
          }
        }
        if userID != 0 {
          r := FindInRange(Bucket(byId, userID), userPort, userKadDest);
          if r != null {
            return;
          }
        }
      }
      if client.hasValidHash {
        var range := Bucket(byHash, client.userHash);
        if range != [] {
          assert range[0] in range;
          return range[0];
        }
      }
      return null;
    }

    /** The connection goes to the known client, and the new one is deleted. */
    method Merge(tocheck: Client, found: Client, sender: Option<nat>)
      requires Valid() && Knows(tocheck) && tocheck.Valid() && Listed(found) && tocheck != found
      modifies `byId, `byDest, `byHash, tocheck`state, tocheck`socket, found`socket
      ensures Valid() && tocheck.state == CS_DYING && Listed(found)
      ensures found.socket == (if sender.Some? then sender else old(found.socket))
      ensures sender.Some? ==> tocheck.socket.None?
    {
      hide Represents;
      if sender.Some? {
        found.socket := sender;
        tocheck.socket := None;
      }
      tocheck.SafeDelete(this, false);
    }

    /** Another client is connected in the place of the new one. */
    predicate Conflict(found: Client, tocheck: Client, sender: Option<nat>)
      reads found, tocheck
    {
      sender.Some? && found.socket.Some? && found.connected && (found.dest != tocheck.dest || found.port != tocheck.port)
    }

    /** Merges a new connection's client into the one already known; `found` is the one that matches best. */
    method AttachToAlreadyKnown(tocheck: Client, sender: Option<nat>)
      returns (attached: bool, client: Client, ghost found: Client?)
      requires Valid() && Knows(tocheck) && tocheck.Valid()
      modifies `byId, `byDest, `byHash, tocheck`state, tocheck`socket, tocheck`banned, clients`socket
      ensures Valid()
      ensures found == null ==> forall c :: c in clients && old(c.state) == CS_LISTED ==> old(tocheck.Rank(c)) == 5
      ensures found != null ==> found in clients && old(found.state) == CS_LISTED && old(tocheck.Rank(found)) < 5
      ensures found != null ==>
        forall c :: c in clients && old(c.state) == CS_LISTED ==> old(tocheck.Rank(found)) <= old(tocheck.Rank(c))
      ensures forall c :: c in clients && c != tocheck && !(attached && c == found && sender.Some?) ==> c.socket == old(c.socket)
      ensures attached <==> found != null && (found == tocheck || !old(Conflict(found, tocheck, sender)))
      // refused only by a client that is connected, when another socket asks from elsewhere
      ensures attached <==> found != null && !(found != tocheck && sender.Some? && old(found.socket).Some? && old(found.connected)
                                               && old(found.dest != tocheck.dest || found.port != tocheck.port))
      ensures client == if attached then found else tocheck
      ensures if attached && found != tocheck then
                && Listed(found) && tocheck.state == CS_DYING
                && (sender.Some? ==> found.socket == sender && tocheck.socket.None?)
              else tocheck.state == old(tocheck.state) && tocheck.socket == old(tocheck.socket)
      ensures tocheck.banned == (old(tocheck.banned) || (!attached && found != null && found.identified))
    {
      client, attached := tocheck, false;
      var known := FindMatchingClient(tocheck);
      found := known;
      hide Represents, Client.Rank;
      if tocheck == known {
        attached := true;
      } else if known != null {
        if Conflict(known, tocheck, sender) {
          if known.identified {
            tocheck.banned := true;
          }
          return;
        }
        Merge(tocheck, known, sender);
        attached, client := true, known;
      }
    }
  }

  /** 0 for the same port, 1 for the same Kad destination, 2 for neither. */
  function Through(port: uint16, kadDest: uint32, c: Client): nat
    reads c
  {
    if port != 0 && c.port == port then 0 else if kadDest != 0 && c.udpDest == kadDest then 1 else 2
  }
}
