/** CED2KFileLink: printing a file link and reading it back. */
module ED2KLink {
  import opened Words
  import opened LinkText

  const MAX_FILE_SIZE := 0x40_0000_0000

  datatype FileLink = FileLink(name: string, size: uint64, hash: Hash)

  datatype Error = NotAFileLink | InvalidSize | InvalidHash

  datatype Parsed = Link(link: FileLink) | Rejected(error: Error)

  function SizeAndHash(l: FileLink): string {
    Then(Digits(l.size), Then(Encode(l.hash), "/"))
  }

  function GetLink(l: FileLink): string {
    Then("ed2k://", Then("file", Then(l.name, SizeAndHash(l))))
  }

  function ParsedName(token: string): (r: string)
    ensures |r| <= |token| && '/' !in r
  {
    NoPath(Unescape(Strip(token)))
  }

  /** The fields name, size and hash; the extra fields behind them are not looked at here. */
  function Parse(link: string): Parsed {
    var tokens := Split(link);
    if |tokens| < 5 || tokens[0] != "ed2k://" || tokens[1] != "file" then Rejected(NotAFileLink)
    else
      var size := StrToULongLong(Strip(tokens[3]));
      if size == 0 || size > MAX_FILE_SIZE then Rejected(InvalidSize)
      else
        match Decode(Strip(tokens[4]))
        case None => Rejected(InvalidHash)
        case Some(hash) => Link(FileLink(ParsedName(tokens[2]), size, hash))
  }

  // ---- the round trip --------------------------------------------------------------

  /** The names that survive: stripped, without '|', '/' or an escape code. */
  ghost predicate Clean(name: string) {
    IsStripped(name) && '|' !in name && '/' !in name && NoEscape(name)
  }

  /** A token without '|' is read as itself exactly when it is clean. */
  lemma NameSurvives(token: string)
    ensures ParsedName(token) == token <==> IsStripped(token) && NoEscape(token) && '/' !in token
  {
    StripKeeps(token);
    UnescapeKeeps(token);
    NoPathKeeps(token);
    hide Strip, Unescape, NoEscape, IsStripped, NoPath;
  }

  lemma DigitsAreStripped(n: nat)
    ensures Strip(Digits(n)) == Digits(n) && '|' !in Digits(n)
  {
    var s := Digits(n);
    assert IsDigit(s[0]) && IsDigit(s[|s| - 1]);
    assert forall i :: 0 <= i < |s| ==> IsDigit(s[i]) && s[i] != '|';
    StripKeeps(s);
    hide Strip, Digits;
  }

  lemma HashIsStripped(h: Hash)
    ensures Strip(Encode(h)) == Encode(h) && '|' !in Encode(h)
  {
    var s := Encode(h);
    EncodeIsHex(h);
    assert HexDigit(s[0]).Some? && HexDigit(s[|s| - 1]).Some?;
    assert forall i :: 0 <= i < |s| ==> HexDigit(s[i]).Some? && s[i] != '|';
    StripKeeps(s);
    hide Strip, Encode;
  }

  lemma TailTokens(l: FileLink)
    ensures Split(SizeAndHash(l)) == [Digits(l.size), Encode(l.hash), "/"]
  {
    DigitsAreStripped(l.size);
    HashIsStripped(l.hash);
    hide Digits, Encode, Bar, Split, Strip, Then;
    SplitOne("/");
    SplitFirst(Encode(l.hash), "/");
    SplitFirst(Digits(l.size), Then(Encode(l.hash), "/"));
  }

  lemma HeadTokens(rest: string)
    ensures Split(Then("ed2k://", Then("file", rest))) == ["ed2k://", "file"] + Split(rest)
  {
    hide Bar, Split, Then;
    SplitFirst("file", rest);
    SplitFirst("ed2k://", Then("file", rest));
  }

  /** The tokens of a printed link, when the name does not add any. */
  lemma TokensOfLink(l: FileLink)
    requires '|' !in l.name
    ensures Split(GetLink(l)) == ["ed2k://", "file", l.name, Digits(l.size), Encode(l.hash), "/"]
  {
    TailTokens(l);
    hide Digits, Encode, Bar, Split, Strip, Then, SizeAndHash;
    SplitFirst(l.name, SizeAndHash(l));
    HeadTokens(Then(l.name, SizeAndHash(l)));
  }

  /** A name with '|' is cut there, and what is read is shorter than it. */
  lemma CutName(l: FileLink)
    requires '|' in l.name
    ensures |Split(GetLink(l))| > 2 && |Split(GetLink(l))[2]| < |l.name|
  {
    var at := Bar(l.name);
    assert l.name[..|l.name|] == l.name;
    var cut, rest := l.name[..at], l.name[at + 1..];
    assert l.name == Then(cut, rest);
    hide Digits, Encode, Bar, Split, Then, SizeAndHash;
    ThenIsAssociative(cut, rest, SizeAndHash(l));
    SplitFirst(cut, Then(rest, SizeAndHash(l)));
    HeadTokens(Then(l.name, SizeAndHash(l)));
  }

  lemma FieldTokens(name: string, size: nat, hash: Hash)
    requires '|' !in name
    ensures Split(Then("ed2k://", Then("file", Then(name, Then(Digits(size), Encode(hash))))))
         == ["ed2k://", "file", name, Digits(size), Encode(hash)]
    ensures Split(Then("ed2k://", Then("file", Then(name, Digits(size))))) == ["ed2k://", "file", name, Digits(size)]
  {
    DigitsAreStripped(size);
    HashIsStripped(hash);
    hide Digits, Encode, Bar, Split, Strip, Then;
    SplitOne(Encode(hash));
    SplitOne(Digits(size));
    SplitFirst(Digits(size), Encode(hash));
    SplitFirst(name, Then(Digits(size), Encode(hash)));
    SplitFirst(name, Digits(size));
    HeadTokens(Then(name, Then(Digits(size), Encode(hash))));
    HeadTokens(Then(name, Digits(size)));
  }

  lemma ParseOfTokens(link: string, name: string, size: uint64, hash: Hash)
    requires Split(link) == ["ed2k://", "file", name, Digits(size), Encode(hash)]
    requires Strip(Digits(size)) == Digits(size) && StrToULongLong(Digits(size)) == size
    requires Strip(Encode(hash)) == Encode(hash) && Decode(Encode(hash)) == Some(hash)
    ensures Parse(link) == if 1 <= size <= 274_877_906_944 then Link(FileLink(ParsedName(name), size, hash)) else Rejected(InvalidSize)
  {
    hide Split, Decode, StrToULongLong, Strip, ParsedName, Digits, Encode;
  }

  /** The three fields are enough, and two are not; sizes from 1 to 256 GB are taken, and the name is cleaned. */
  lemma ParseOfFields(name: string, size: uint64, hash: Hash)
    requires '|' !in name
    ensures Parse(Then("ed2k://", Then("file", Then(name, Then(Digits(size), Encode(hash))))))
         == if 1 <= size <= 274_877_906_944 then Link(FileLink(ParsedName(name), size, hash)) else Rejected(InvalidSize)
    ensures Parse(Then("ed2k://", Then("file", Then(name, Digits(size))))) == Rejected(NotAFileLink)
  {
    FieldTokens(name, size, hash);
    var tokens := Split(Then("ed2k://", Then("file", Then(name, Digits(size)))));
    assert |tokens| == 4;
    assert Parse(Then("ed2k://", Then("file", Then(name, Digits(size))))) == Rejected(NotAFileLink);
    hide *;
    DigitsAreStripped(size);
    HashIsStripped(hash);
    NumberIsUnsigned(size);
    DecodeOfEncode(hash);
    ParseOfTokens(Then("ed2k://", Then("file", Then(name, Then(Digits(size), Encode(hash))))), name, size, hash);
  }

  /** Reading what GetLink prints returns the same link if and only if its name is clean. */
  lemma LinkSurvives(l: FileLink)
    requires 0 < l.size <= 0x40_0000_0000
    ensures Parse(GetLink(l)) == Link(l) <==> Clean(l.name)
  {
    if '|' in l.name {
      CutName(l);
      hide GetLink, Split, Decode, StrToULongLong, Strip;
    } else {
      TokensOfLink(l);
      NameSurvives(l.name);
      DigitsAreStripped(l.size);
      HashIsStripped(l.hash);
      NumberIsUnsigned(l.size);
      DecodeOfEncode(l.hash);
      hide GetLink, Split, Decode, StrToULongLong, Strip, ParsedName, Digits, Encode, NoEscape, IsStripped;
    }
  }
}
