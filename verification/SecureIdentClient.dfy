/** The client object's part in the secure identification, step by step. */
module SecureIdentClient {
  import opened Words
  import C = ClientCredits
  import opened Encoding
  import opened SecureIdent

  class IdentClient {
    const me: Me
    const credits: C.ClientCredits
    var secureIdentState: uint8
    var lastSignatureDest: uint32
    var tcpDest: uint32
    var supportSecIdent: uint8
    var outgoing: seq<Message>

    ghost function View(): Session
      reads this
    {
      Session(secureIdentState, lastSignatureDest, tcpDest, supportSecIdent)
    }

    constructor (me: Me, credits: C.ClientCredits, tcpDest: uint32, supportSecIdent: uint8)
      ensures View() == Session(IS_UNAVAILABLE, 0, tcpDest, supportSecIdent) && outgoing == []
      ensures this.me == me && this.credits == credits
    {
      this.me, this.credits, this.tcpDest, this.supportSecIdent := me, credits, tcpDest, supportSecIdent;
      secureIdentState, lastSignatureDest, outgoing := IS_UNAVAILABLE, 0, [];
    }

    method SendPublicKeyPacket()
      modifies `secureIdentState, `outgoing
      ensures var (s, out) := SendPublicKey(me, old(View())); View() == s && outgoing == old(outgoing) + out
    {
      if secureIdentState != IS_KEYANDSIGNEEDED || !CryptoAvailable(me) {
        return;
      }
      outgoing := outgoing + [PublicKey(me.pub)];
      secureIdentState := IS_SIGNATURENEEDED;
    }

    method SendSignaturePacket()
      modifies `secureIdentState, `outgoing
      ensures var (s, out) := SendSignature(me, old(View()), credits.View()); View() == s && outgoing == old(outgoing) + out
    {
      if secureIdentState == IS_UNAVAILABLE || !CryptoAvailable(me) {
        return;
      }
      if |credits.publicKey| == 0 {
        return;  // not known yet; OnPublicKeyPacket comes back here
      }
      if credits.cryptRndChallengeFrom == 0 {
        return;
      }
      var useV2 := supportSecIdent % 2 != 1;
      var kind: uint8, ip := 0, 0;
      if useV2 {
        ip := me.publicDest;
        kind := CRYPT_CIP_LOCALCLIENT;
      }
      var signature := Signature(me.pub, Content(credits.publicKey, credits.cryptRndChallengeFrom, ip, kind));
      outgoing := outgoing + [SignatureOf(signature, if useV2 then Some(kind) else None)];
      secureIdentState := IS_ALLREQUESTSSEND;
    }

    method SendSecIdentStatePacket(random: uint32)
      modifies credits`cryptRndChallengeFor, `outgoing
      ensures var (c, out) := Challenge(me, View(), old(credits.View()), random);
              credits.View() == c && outgoing == old(outgoing) + out
    {
      var value: uint8 := 0;
      if CryptoAvailable(me) {
        if |credits.publicKey| == 0 {
          value := IS_KEYANDSIGNEEDED;
        } else if lastSignatureDest != tcpDest {
          value := IS_SIGNATURENEEDED;
        }
      }
      if value == 0 {
        return;
      }
      credits.cryptRndChallengeFor := random;
      outgoing := outgoing + [SecIdentState(value, random)];
    }

    method ProcessSecIdentStatePacket(value: uint8, challenge: uint32)
      modifies `secureIdentState, credits`cryptRndChallengeFrom
      ensures View() == if value > 2 then old(View()) else old(View()).(state := value)
      ensures credits.View() == if value > 2 then old(credits.View()) else old(credits.View()).(challengeFrom := challenge)
    {
      match value {
        case 0 => secureIdentState := IS_UNAVAILABLE;
        case 1 => secureIdentState := IS_SIGNATURENEEDED;
        case 2 => secureIdentState := IS_KEYANDSIGNEEDED;
        case _ => return;
      }
      credits.cryptRndChallengeFrom := challenge;
    }

    /** The dispatch of OP_SECIDENTSTATE. */
    method OnSecIdentStatePacket(value: uint8, challenge: uint32)
      modifies this, credits
      ensures var (s, c, out) := OnSecIdentState(me, old(View()), old(credits.View()), value, challenge);
              View() == s && credits.View() == c && outgoing == old(outgoing) + out
    {
      ProcessSecIdentStatePacket(value, challenge);
      if secureIdentState == IS_SIGNATURENEEDED {
        SendSignaturePacket();
      } else if secureIdentState == IS_KEYANDSIGNEEDED {
        SendPublicKeyPacket();
        SendSignaturePacket();
      }
    }

    /** The dispatch of OP_PUBLICKEY. */
    method ProcessPublicKeyPacket(key: C.Key)
      modifies this, credits
      ensures var (s, c, out) := OnPublicKey(me, old(View()), old(credits.View()), key);
              View() == s && credits.View() == c && outgoing == old(outgoing) + out
    {
      if |key| > 249 || !CryptoAvailable(me) {
        return;
      }
      var ok := credits.SetSecureIdent(key);
      if ok && secureIdentState == IS_SIGNATURENEEDED {
        SendSignaturePacket();
      }
    }

    /** The dispatch of OP_SIGNATURE; the check itself is VerifyIdent. */
    method ProcessSignaturePacket(signature: Signature, kind: Option<uint8>)
      modifies `lastSignatureDest, credits
      ensures var (s, c) := OnSignature(me, old(View()), old(credits.View()), signature, kind);
              View() == s && credits.View() == c
    {
      var byChaIPKind: uint8;
      if kind.None? {
        byChaIPKind := 0;
      } else if supportSecIdent / 2 % 2 != 0 {
        byChaIPKind := kind.value;
      } else {
        return;
      }
      if !CryptoAvailable(me) {
        return;
      }
      if lastSignatureDest == tcpDest || |credits.publicKey| == 0 || credits.cryptRndChallengeFor == 0 {
        return;
      }
      var verified := VerifyIdent(signature, tcpDest, byChaIPKind);
      lastSignatureDest := tcpDest;
    }

    /** Without a crypto library the identity is not available; otherwise the signature decides. */
    method VerifyIdent(signature: Signature, forIP: uint32, byChaIPKind: uint8) returns (verified: bool)
      modifies credits
      ensures verified <==> CryptoAvailable(me) && Verifies(me, old(credits.View()), signature, forIP, byChaIPKind)
      ensures credits.View()
           == if !CryptoAvailable(me) then old(credits.View()).(identState := C.NotAvailable)
              else C.After(old(credits.View()), if verified then C.Verified(forIP) else C.VerifyFailed)
    {
      if !CryptoAvailable(me) {
        credits.identState := C.NotAvailable;
        return false;
      }
      var buffer := me.pub + LittleEndian(credits.cryptRndChallengeFor, 4);
      if byChaIPKind != 0 {
        var challengeIP := 0;
        match byChaIPKind {
          case CRYPT_CIP_LOCALCLIENT => challengeIP := forIP;
          case CRYPT_CIP_REMOTECLIENT => challengeIP := me.localIP;
          case CRYPT_CIP_NONECLIENT => challengeIP := 0;
          case _ =>
        }
        buffer := buffer + (LittleEndian(challengeIP, 4) + [byChaIPKind]);
      }
      assert buffer == Content(me.pub, credits.cryptRndChallengeFor, ChallengedIP(me, forIP, byChaIPKind), byChaIPKind);
      verified := signature == Signature(credits.publicKey, buffer);
      if verified {
        credits.Verified(forIP);
      } else if credits.identState == C.IdNeeded {
        credits.identState := C.IdFailed;
      }
    }
  }
}
