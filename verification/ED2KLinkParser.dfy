/** The stand-alone link parser: character loops over strings, and offsets found with string::find. */
module ED2KLinkParser {
  import opened Words
  import LinkText
  import ED2KLink

  /** string::npos. */
  const NPOS := TWO64 - 1

  /** The value of at most two hexadecimal digits, 0 if one is not a digit. */
  method HexToDec(hex: string) returns (result: nat)
    requires |hex| == 2
    ensures result == LinkText.Code(hex[0], hex[1])
  {
    result := 0;
    for i := 0 to |hex|
      invariant i >= 1 ==> LinkText.HexDigit(hex[0]).Some?
      invariant i == 0 ==> result == 0
      invariant i == 1 ==> result == LinkText.HexDigit(hex[0]).value
      invariant i == 2 ==> result == LinkText.Code(hex[0], hex[1])
    {
      var digit := LinkText.HexDigit(hex[i]);
      if digit.None? {
        return 0;
      }
      result := result * 16 + digit.value;
    }
  }

  /** The character at a position, and how many characters stand for it. */
  method UnescapeAt(str: string, i: nat) returns (c: char, width: nat)
    requires i < |str|
    ensures if LinkText.EscapeAt(str, i) then width == 3 && c == LinkText.Code(str[i + 1], str[i + 2]) as char
            else width == 1 && c == str[i]
  {
    c, width := str[i], 1;
    if str[i] == '%' && i + 2 < |str| {
      var unesc := HexToDec(str[i + 1..i + 3]);
      if unesc != 0 {
        c, width := unesc as char, 3;
      }
    }
  }

  method Unescape(str: string) returns (result: string)
    ensures result == LinkText.Unescape(str)
  {
    result := "";
    var i := 0;
    assert str[0..] == str;
    while i < |str|
      invariant 0 <= i <= |str| && LinkText.Unescape(str) == result + LinkText.Unescape(str[i..])
      decreases |str| - i
    {
      UnescapeStep(str, i);
      assert LinkText.EscapeAt(str, i) ==> i + 3 <= |str|;
      hide LinkText.Unescape, LinkText.Code, LinkText.EscapeAt;
      var c, width := UnescapeAt(str, i);
      result := result + [c];
      i := i + width;
    }
  }

  lemma UnescapeStep(str: string, i: nat)
    requires i < |str|
    ensures LinkText.Unescape(str[i..]) ==
            if LinkText.EscapeAt(str, i) then [LinkText.Code(str[i + 1], str[i + 2]) as char] + LinkText.Unescape(str[i + 3..])
            else [str[i]] + LinkText.Unescape(str[i + 1..])
  {
    var rest := str[i..];
    assert rest[1..] == str[i + 1..];
    if LinkText.EscapeAt(str, i) {
      assert rest[3..] == str[i + 3..];
    }
  }

  method IsNumber(str: string) returns (r: bool)
    ensures r <==> LinkText.IsNumber(str)
  {
    for i := 0 to |str|
      invariant forall j :: 0 <= j < i ==> LinkText.IsDigit(str[j])
    {
      if !LinkText.IsDigit(str[i]) {
        return false;
      }
    }
    r := |str| > 0;
  }

  method IsMD4Hash(str: string) returns (r: bool)
    ensures r <==> LinkText.IsMD4Hash(str)
  {
    for i := 0 to |str|
      invariant forall j :: 0 <= j < i ==> LinkText.HexDigit(str[j]).Some?
    {
      if LinkText.HexDigit(str[i]).None? {
        return false;
      }
    }
    r := |str| == 32;
  }

  function Found(uri: string, from: nat): (at: nat)
    requires from <= |uri|
    ensures at == NPOS || from <= at < |uri|
  {
    if LinkText.Bar(uri[from..]) == |uri| - from then NPOS else from + LinkText.Bar(uri[from..])
  }

  /** uri.find('|', from). */
  method Find(uri: string, from: nat) returns (at: nat)
    requires |uri| < NPOS
    ensures at == NPOS || (from <= at < |uri| && uri[at] == '|')
    ensures from <= |uri| ==> at == Found(uri, from)
  {
    at := from;
    while at < |uri|
      invariant from <= |uri| ==> at <= |uri| && LinkText.Bar(uri[from..]) == at - from + LinkText.Bar(uri[at..])
    {
      if uri[at] == '|' {
        return;
      }
      assert uri[at..][1..] == uri[at + 1..];
      at := at + 1;
    }
    at := NPOS;
  }

  /** The position after an offset; after npos it wraps around to the start. */
  function Next(offset: nat): nat {
    (offset + 1) % TWO64
  }

  predicate HasHeader(uri: string) {
    |uri| >= 13 && uri[..13] == "ed2k://|file|"
  }

  /** The fields of an acceptable link, cut where the tokenizer of the file links cuts. */
  function Fields(uri: string): Option<(string, string, string)> {
    if !HasHeader(uri) then None
    else
      assert |uri| >= 13;
      var t := LinkText.Split(uri[13..]);
      if |t| >= 4 && t[0] != "" && LinkText.IsNumber(t[1]) && LinkText.IsMD4Hash(t[2]) then Some((t[0], t[1], t[2]))
      else None
  }

  lemma SplitAt(uri: string, from: nat, bar: nat)
    requires from <= bar < |uri| && bar == from + LinkText.Bar(uri[from..])
    ensures LinkText.Split(uri[from..]) == [uri[from..bar]] + LinkText.Split(uri[bar + 1..])
  {
    var s := uri[from..];
    assert s[..bar - from] == uri[from..bar] && s[bar - from + 1..] == uri[bar + 1..];
    hide LinkText.Bar;
  }

  lemma SplitEnds(uri: string, from: nat)
    requires from <= |uri| && LinkText.Bar(uri[from..]) == |uri| - from
    ensures LinkText.Split(uri[from..]) == [uri[from..]]
  {
  }

  /** The offsets found are the places where the tokenizer cuts. */
  lemma OffsetsCut(uri: string, nameOff: nat, sizeOff: nat, hashOff: nat)
    requires 13 <= |uri| < NPOS
    requires nameOff == Found(uri, 13)
    requires nameOff != NPOS ==> sizeOff == Found(uri, nameOff + 1)
    requires nameOff != NPOS && sizeOff != NPOS ==> hashOff == Found(uri, sizeOff + 1)
    ensures var t := LinkText.Split(uri[13..]);
            if nameOff == NPOS || sizeOff == NPOS || hashOff == NPOS then |t| < 4
            else |t| >= 4 && t[0] == uri[13..nameOff] && t[1] == uri[nameOff + 1..sizeOff] && t[2] == uri[sizeOff + 1..hashOff]
  {
    hide LinkText.Bar, LinkText.Split;
    if nameOff == NPOS {
      SplitEnds(uri, 13);
    } else {
      SplitAt(uri, 13, nameOff);
      if sizeOff == NPOS {
        SplitEnds(uri, nameOff + 1);
      } else {
        SplitAt(uri, nameOff + 1, sizeOff);
        if hashOff == NPOS {
          SplitEnds(uri, sizeOff + 1);
        } else {
          SplitAt(uri, sizeOff + 1, hashOff);
        }
      }
    }
  }

  /** Accepts exactly the links that have the fields, and cuts the same ones out. */
  method CheckFileLink(uri: string) returns (r: Option<(string, string, string)>)
    requires |uri| < NPOS
    ensures r == Fields(uri)
  {
    if !HasHeader(uri) {
      return None;
    }
    assert |uri| >= 13;
    hide *;
    var baseOff := 12;
    NextOffset(baseOff);
    var nameOff := Find(uri, Next(baseOff));
    NextOffset(nameOff);
    var sizeOff := Find(uri, Next(nameOff));
    NextOffset(sizeOff);
    var hashOff := Find(uri, Next(sizeOff));
    OffsetsCut(uri, nameOff, sizeOff, hashOff);
    FieldsOfTokens(uri);
    if !(baseOff < nameOff && nameOff < sizeOff && sizeOff < hashOff && hashOff != NPOS) {
      return None;
    }
    var name := uri[baseOff + 1..nameOff];
    var size := uri[nameOff + 1..sizeOff];
    var hash := uri[sizeOff + 1..hashOff];
    if name == "" {
      return None;
    }
    var number := IsNumber(size);
    var hex := IsMD4Hash(hash);
    r := if number && hex then Some((name, size, hash)) else None;
  }

  lemma NextOffset(offset: nat)
    requires offset <= NPOS
    ensures Next(offset) == if offset == NPOS then 0 else offset + 1
  {
  }

  lemma FieldsOfTokens(uri: string)
    requires HasHeader(uri)
    ensures |uri| >= 13
    ensures var t := LinkText.Split(uri[13..]);
            Fields(uri) == if |t| >= 4 && t[0] != "" && LinkText.IsNumber(t[1]) && LinkText.IsMD4Hash(t[2])
                           then Some((t[0], t[1], t[2])) else None
  {
    assert |uri| >= 13;
    hide HasHeader, LinkText.Split, LinkText.IsNumber, LinkText.IsMD4Hash;
  }

  lemma HeaderOfLink(rest: string)
    ensures var uri := LinkText.Then("ed2k://", LinkText.Then("file", rest));
            HasHeader(uri) && |uri| >= 13 && uri[13..] == rest
  {
  }

  /** The numbers a link can hold are never taken for a hash. */
  lemma NumberIsNoHash(size: uint64)
    ensures !LinkText.IsMD4Hash(LinkText.Digits(size))
  {
    assert LinkText.Power(4) == 10_000;
    assert LinkText.Power(8) == 10_000 * LinkText.Power(4);
    assert LinkText.Power(12) == 10_000 * LinkText.Power(8);
    assert LinkText.Power(16) == 10_000 * LinkText.Power(12);
    assert LinkText.Power(20) == 10_000 * LinkText.Power(16);
    LinkText.DigitsAreFew(size, 19);
  }

  /** A printed link is accepted with its three fields when its name has no bar and is not empty. With a
      bar the parser looks at the fields inside the name: it refuses the link unless the name itself
      goes on with a number and a hash, and then takes those instead. */
  lemma PrintedLinkIsAccepted(l: ED2KLink.FileLink)
    ensures var size, hash, name := LinkText.Digits(l.size), LinkText.Encode(l.hash), LinkText.Split(l.name);
            Fields(ED2KLink.GetLink(l)) ==
            if '|' !in l.name then (if l.name == "" then None else Some((l.name, size, hash)))
            else if |name| >= 3 && name[0] != "" && LinkText.IsNumber(name[1]) && LinkText.IsMD4Hash(name[2])
            then Some((name[0], name[1], name[2])) else None
  {
    var rest := LinkText.Then(l.name, ED2KLink.SizeAndHash(l));
    var uri := ED2KLink.GetLink(l);
    HeaderOfLink(rest);
    LinkText.EncodeIsHex(l.hash);
    assert LinkText.IsMD4Hash(LinkText.Encode(l.hash));
    assert uri[13..] == rest;
    FieldsOfTokens(uri);
    NumberIsNoHash(l.size);
    LinkText.SplitBoth(l.name, ED2KLink.SizeAndHash(l));
    LinkText.SplitIsOne(l.name);
    ED2KLink.TailTokens(l);
    hide *;
    var size, hash, name := LinkText.Digits(l.size), LinkText.Encode(l.hash), LinkText.Split(l.name);
    assert LinkText.Split(rest) == name + [size, hash, "/"];
  }
}
