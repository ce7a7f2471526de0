/** ICE candidates as SDP lines (src/webrtc_transport.rs; section 5.1 of RFC 8839). */
module IceCandidates {
  import opened Basics
  import opened Numerals

  datatype CandidateType = Host | Srflx | Prflx | Relay

  datatype IceCandidate = IceCandidate(
    foundation: string, componentId: u16, protocol: string, priority: u64, address: string, port: u16,
    candidateType: CandidateType, relatedAddress: Option<string>, relatedPort: Option<u16>)

  // ---------- numbers ----------

  /** The ASCII digit for d. */
  function DigitChar(d: nat): char
    requires d < 10
  {
    ('0' as int + d) as char
  }

  predicate IsDigit(c: char) {
    '0' <= c <= '9'
  }

  function DigitValue(c: char): nat
    requires IsDigit(c)
  {
    c as int - '0' as int
  }

  /** A number as `format!` prints it. */
  function Printed(n: nat): (s: string)
    ensures s != [] && (forall i :: 0 <= i < |s| ==> IsDigit(s[i]))
  {
    var ds := Digits(n, Decimal);
    seq(|ds|, i requires 0 <= i < |ds| => DigitChar(ds[i]))
  }

  function Values(s: string): seq<nat>
    requires forall i :: 0 <= i < |s| ==> IsDigit(s[i])
  {
    seq(|s|, i requires 0 <= i < |s| => DigitValue(s[i]))
  }

  predicate AllDigits(s: string) {
    forall i :: 0 <= i < |s| ==> IsDigit(s[i])
  }

  /** `str::parse` into an unsigned number of at most `max`: an optional plus sign and one or more digits. */
  function ParseNumber(s: string, max: nat): (r: Option<nat>)
    ensures r.Some? ==> r.value <= max
  {
    var digits := if s != [] && s[0] == '+' then s[1..] else s;
    if digits == [] || !AllDigits(digits) then None
    else
      var n := Evaluate(Values(digits), Decimal);
      if n > max then None else Some(n)
  }

  lemma PrintedParses(n: nat, max: nat)
    ensures ParseNumber(Printed(n), max) == if n <= max then Some(n) else None
  {
    var ds := Digits(n, Decimal);
    var s := Printed(n);
    assert Values(s) == ds;
    DigitsEvaluate(n, Decimal);
    assert IsDigit(s[0]);
  }

  // ---------- words ----------

  /** Unicode's White_Space property, by which `split_whitespace` splits. */
  predicate IsWhitespace(c: char) {
    var n := c as int;
    || 0x09 <= n <= 0x0D || n == 0x20 || n == 0x85 || n == 0xA0 || n == 0x1680 || 0x2000 <= n <= 0x200A
    || n == 0x2028 || n == 0x2029 || n == 0x202F || n == 0x205F || n == 0x3000
  }

  /** A non-empty string without whitespace. */
  predicate IsWord(s: string) {
    s != [] && forall i :: 0 <= i < |s| ==> !IsWhitespace(s[i])
  }

  /** The length of the longest prefix without whitespace. */
  function WordLength(s: string): (n: nat)
    ensures n <= |s| && (forall i :: 0 <= i < n ==> !IsWhitespace(s[i])) && (n < |s| ==> IsWhitespace(s[n]))
  {
    if s == [] || IsWhitespace(s[0]) then 0 else 1 + WordLength(s[1..])
  }

  function SplitWhitespace(s: string): (words: seq<string>)
    ensures forall i :: 0 <= i < |words| ==> IsWord(words[i])
    decreases |s|
  {
    if s == [] then []
    else if IsWhitespace(s[0]) then SplitWhitespace(s[1..])
    else
      var n := WordLength(s);
      assert n > 0;
      var rest := SplitWhitespace(s[n..]);
      assert IsWord(s[..n]);
      assert forall i :: 1 <= i < |[s[..n]] + rest| ==> ([s[..n]] + rest)[i] == rest[i - 1];
      [s[..n]] + rest
  }

  /** The words with one space after each. */
  function Spaced(words: seq<string>): string {
    if words == [] then "" else words[0] + " " + Spaced(words[1..])
  }

  lemma {:induction false} WordLengthOf(word: string, rest: string)
    requires forall i :: 0 <= i < |word| ==> !IsWhitespace(word[i])
    requires rest == [] || IsWhitespace(rest[0])
    ensures WordLength(word + rest) == |word|
  {
    if word != [] {
      assert (word + rest)[1..] == word[1..] + rest;
      WordLengthOf(word[1..], rest);
    } else {
      assert word + rest == rest;
    }
  }

  lemma SplitsOffWord(word: string, rest: string)
    requires IsWord(word) && (rest == [] || IsWhitespace(rest[0]))
    ensures SplitWhitespace(word + rest) == [word] + SplitWhitespace(rest)
  {
    WordLengthOf(word, rest);
    var s := word + rest;
    assert s[0] == word[0] && s[..|word|] == word && s[|word|..] == rest;
  }

  lemma SplitsOffSpace(rest: string)
    ensures SplitWhitespace(" " + rest) == SplitWhitespace(rest)
  {
    assert (" " + rest)[1..] == rest;
  }

  /** Splitting undoes joining. */
  lemma {:induction false} SpacedSplits(words: seq<string>, rest: string)
    requires forall i :: 0 <= i < |words| ==> IsWord(words[i])
    ensures SplitWhitespace(Spaced(words) + rest) == words + SplitWhitespace(rest)
    decreases |words|
  {
    hide SplitWhitespace, IsWord, IsWhitespace;
    if words == [] {
      assert Spaced(words) + rest == rest;
    } else {
      var tail := Spaced(words[1..]) + rest;
      assert Spaced(words) + rest == words[0] + (" " + tail);
      assert IsWhitespace(' ') by { SpaceIsWhitespace(); }
      SplitsOffWord(words[0], " " + tail);
      SplitsOffSpace(tail);
      SpacedSplits(words[1..], rest);
      assert words == [words[0]] + words[1..];
    }
  }

  lemma SpaceIsWhitespace()
    ensures IsWhitespace(' ') && IsWhitespace('\r')
  {
  }

  // ---------- candidates ----------

  const PREFIX: string := "a=candidate:"

  function TypeName(t: CandidateType): string {
    match t
    case Host => "host"
    case Srflx => "srflx"
    case Prflx => "prflx"
    case Relay => "relay"
  }

  /** Whatever is not one of the names counts as a host candidate. */
  function TypeNamed(name: string): CandidateType {
    if name == "host" then Host
    else if name == "srflx" then Srflx
    else if name == "prflx" then Prflx
    else if name == "relay" then Relay
    else Host
  }

  function Related(c: IceCandidate): string {
    match c.relatedAddress
    case None => ""
    case Some(address) =>
      " raddr " + address + " rport " + Printed(match c.relatedPort case Some(port) => port case None => 0)
  }

  function ToSdp(c: IceCandidate): string {
    PREFIX + c.foundation + " " + Printed(c.componentId) + " " + c.protocol + " " + Printed(c.priority) + " "
    + c.address + " " + Printed(c.port) + " typ " + TypeName(c.candidateType) + Related(c) + "\r\n"
  }

  function FromSdp(line: string): Option<IceCandidate> {
    if !(PREFIX <= line) then None
    else
      var parts := SplitWhitespace(line[|PREFIX|..]);
      if |parts| < 8 then None
      else
        var componentId, priority, port :=
          ParseNumber(parts[1], 0xFFFF), ParseNumber(parts[3], 0xFFFF_FFFF_FFFF_FFFF), ParseNumber(parts[5], 0xFFFF);
        if componentId.None? || priority.None? || port.None? then None
        else
          Some(IceCandidate(parts[0], componentId.value, parts[2], priority.value, parts[4], port.value,
                            TypeNamed(parts[7]), None, None))
  }

  /** The words of a candidate line up to its type. */
  function Fields(c: IceCandidate): seq<string> {
    [c.foundation, Printed(c.componentId), c.protocol, Printed(c.priority), c.address, Printed(c.port), "typ"]
  }

  lemma Grouped(x: string, a: string, b: string, c: string, end: string)
    ensures x + a + " " + b + " " + c + end == x + (a + " " + b + " " + c + end)
  {
  }

  lemma GroupedTail(x: string, a: string, b: string, c: string)
    ensures x + a + b + c == x + (a + (b + c))
  {
  }

  lemma FieldsAreSpaced(c: IceCandidate)
    ensures
      Spaced(Fields(c)) ==
        (c.foundation + " " + Printed(c.componentId) + " " + c.protocol + " ")
        + (Printed(c.priority) + " " + c.address + " " + Printed(c.port) + " typ ")
  {
    hide Printed, Spaced;
    var words := Fields(c);
    SpacedThree(words[0], words[1], words[2], words[3..]);
    SpacedThree(words[3], words[4], words[5], ["typ"]);
    SpacedLast("typ");
    assert words == [words[0], words[1], words[2]] + words[3..];
    assert words[3..] == [words[3], words[4], words[5]] + ["typ"];
    assert " " + "typ " == " typ ";
    Regrouped(words[3] + " " + words[4] + " " + words[5]);
  }

  lemma Regrouped(x: string)
    ensures x + " " + "typ " == x + " typ "
  {
  }

  lemma SdpIsSpaced(c: IceCandidate)
    ensures ToSdp(c) == PREFIX + (Spaced(Fields(c)) + (TypeName(c.candidateType) + (Related(c) + "\r\n")))
  {
    hide Printed, TypeName, Related, Spaced, Fields;
    var name, related := TypeName(c.candidateType), Related(c);
    var front := c.foundation + " " + Printed(c.componentId) + " " + c.protocol + " ";
    var back := Printed(c.priority) + " " + c.address + " " + Printed(c.port) + " typ ";
    FieldsAreSpaced(c);
    Grouped(PREFIX, c.foundation, Printed(c.componentId), c.protocol, " ");
    Grouped(PREFIX + front, Printed(c.priority), c.address, Printed(c.port), " typ ");
    GroupedTail(PREFIX + front + back, name, related, "\r\n");
    GroupedTail(PREFIX, front, back, name + (related + "\r\n"));
    assert front + (back + (name + (related + "\r\n"))) == (front + back) + (name + (related + "\r\n"));
  }

  lemma SpacedLast(word: string)
    ensures Spaced([word]) == word + " "
  {
  }

  lemma SpacedThree(a: string, b: string, c: string, rest: seq<string>)
    ensures Spaced([a, b, c] + rest) == a + " " + b + " " + c + " " + Spaced(rest)
  {
    hide Spaced;
    SpacedCons(a, [b, c] + rest);
    SpacedCons(b, [c] + rest);
    SpacedCons(c, rest);
    assert [a, b, c] + rest == [a] + ([b, c] + rest) && [b, c] + rest == [b] + ([c] + rest);
  }

  lemma SpacedCons(word: string, rest: seq<string>)
    ensures Spaced([word] + rest) == word + " " + Spaced(rest)
  {
    assert ([word] + rest)[1..] == rest;
  }

  lemma PrintedIsWord(n: nat)
    ensures IsWord(Printed(n))
  {
    forall i | 0 <= i < |Printed(n)| ensures !IsWhitespace(Printed(n)[i]) {
      assert IsDigit(Printed(n)[i]);
    }
  }

  lemma TypeNameIsWord(t: CandidateType)
    ensures IsWord(TypeName(t)) && TypeNamed(TypeName(t)) == t
    ensures (t == Host <==> TypeName(t) == "host") && (t == Srflx <==> TypeName(t) == "srflx")
    ensures (t == Prflx <==> TypeName(t) == "prflx") && (t == Relay <==> TypeName(t) == "relay")
  {
  }

  /** How a candidate line is split behind its prefix, when its free-form fields are words. */
  lemma LineSplits(c: IceCandidate)
    requires IsWord(c.foundation) && IsWord(c.protocol) && IsWord(c.address)
    ensures PREFIX <= ToSdp(c)
    ensures
      SplitWhitespace(ToSdp(c)[|PREFIX|..]) ==
        Fields(c) + ([TypeName(c.candidateType)] + SplitWhitespace(Related(c) + "\r\n"))
  {
    PrintedIsWord(c.componentId);
    PrintedIsWord(c.priority);
    PrintedIsWord(c.port);
    TypeNameIsWord(c.candidateType);
    SpaceIsWhitespace();
    SdpIsSpaced(c);
    assert IsWord("typ");
    hide SplitWhitespace, IsWord, IsWhitespace, ToSdp, Spaced, Printed, TypeName;
    var words, name, tail := Fields(c), TypeName(c.candidateType), Related(c) + "\r\n";
    assert IsWhitespace(tail[0]);
    assert ToSdp(c)[|PREFIX|..] == Spaced(words) + (name + tail);
    SpacedSplits(words, name + tail);
    SplitsOffWord(name, tail);
  }

  /** The parts that are read from a candidate line. */
  lemma PartsOf(c: IceCandidate)
    requires IsWord(c.foundation) && IsWord(c.protocol) && IsWord(c.address)
    ensures
      var parts := SplitWhitespace(ToSdp(c)[|PREFIX|..]);
      |parts| >= 8 && parts[..8] == Fields(c) + [TypeName(c.candidateType)]
  {
    hide SplitWhitespace, IsWord, ToSdp, Printed, TypeName, Related;
    LineSplits(c);
  }

  /** The words of the related address, if there is one. A missing related port is printed as zero. */
  function RelatedWords(c: IceCandidate): seq<string> {
    if c.relatedAddress.None? then []
    else ["raddr", c.relatedAddress.value, "rport", Printed(if c.relatedPort.Some? then c.relatedPort.value else 0)]
  }

  lemma RportIsSpaced(x: string)
    ensures x + " rport " == x + " " + "rport" + " "
  {
  }

  lemma RelatedIsSpaced(address: string, port: string)
    ensures
      " raddr " + address + " rport " + port + "\r\n" ==
        " " + (Spaced(["raddr", address, "rport"]) + (port + "\r\n"))
  {
    var front := ["raddr", address, "rport"];
    SpacedThree("raddr", address, "rport", []);
    SpacedNothing();
    assert front + [] == front;
    hide Spaced;
    var text := "raddr" + " " + address + " " + "rport" + " ";
    assert Spaced(front) == text;
    assert " raddr " == " " + "raddr" + " ";
    RportIsSpaced(" raddr " + address);
    Grouped(" ", "raddr", address, "rport", " ");
    assert " raddr " + address + " rport " == " " + text;
    GroupedTail(" ", text, port, "\r\n");
  }

  lemma RelatedSplits(c: IceCandidate)
    requires c.relatedAddress.Some? ==> IsWord(c.relatedAddress.value)
    ensures SplitWhitespace(Related(c) + "\r\n") == RelatedWords(c)
  {
    SpaceIsWhitespace();
    LineEndSplits();
    if c.relatedAddress.Some? {
      var address, port := c.relatedAddress.value, Printed(if c.relatedPort.Some? then c.relatedPort.value else 0);
      assert IsWord("raddr") && IsWord("rport");
      PrintedIsWord(if c.relatedPort.Some? then c.relatedPort.value else 0);
      hide SplitWhitespace, IsWord, IsWhitespace, Printed, Spaced;
      var front := ["raddr", address, "rport"];
      RelatedIsSpaced(address, port);
      SplitsOffSpace(Spaced(front) + (port + "\r\n"));
      SpacedSplits(front, port + "\r\n");
      SplitsOffWord(port, "\r\n");
      assert front + ([port] + []) == RelatedWords(c);
    } else {
      assert "" + "\r\n" == "\r\n";
    }
  }

  lemma SpacedNothing()
    ensures Spaced([]) == ""
  {
  }

  lemma LineEndSplits()
    ensures SplitWhitespace("\r\n") == []
  {
    assert "\r\n"[1..] == "\n" && "\n"[1..] == "";
    assert SplitWhitespace("\n") == SplitWhitespace("");
  }

  /**
   * The whole line a candidate is printed as, word by word: its fields, the keyword and its type, and, when there is a
   * related address, that and the related port.
   */
  lemma LineSaysEverything(c: IceCandidate)
    requires IsWord(c.foundation) && IsWord(c.protocol) && IsWord(c.address)
    requires c.relatedAddress.Some? ==> IsWord(c.relatedAddress.value)
    ensures PREFIX <= ToSdp(c)
    ensures
      SplitWhitespace(ToSdp(c)[|PREFIX|..]) ==
        [c.foundation, Printed(c.componentId), c.protocol, Printed(c.priority), c.address, Printed(c.port), "typ",
         TypeName(c.candidateType)]
        + RelatedWords(c)
  {
    hide SplitWhitespace, IsWord, IsWhitespace, ToSdp, Spaced, Printed, TypeName, Related, RelatedWords;
    RelatedSplits(c);
    LineSplits(c);
    SdpIsSpaced(c);
    assert Fields(c) + ([TypeName(c.candidateType)] + RelatedWords(c))
        == Fields(c) + [TypeName(c.candidateType)] + RelatedWords(c);
  }

  /** Numbers are printed in decimal, most significant digit first. */
  lemma PrintedInDecimal(n: nat)
    ensures n < 10 ==> Printed(n) == ["0123456789"[n]]
    ensures n >= 10 ==> Printed(n) == Printed(n / 10) + Printed(n % 10)
  {
  }

  /**
   * Reading a printed candidate gives it back, without the related address and port, exactly when its foundation,
   * protocol and address are words: for every component, priority and port and all four types.
   */
  lemma CandidatesRoundTripExactly(c: IceCandidate)
    ensures
      FromSdp(ToSdp(c)) == Some(c.(relatedAddress := None, relatedPort := None)) <==>
        IsWord(c.foundation) && IsWord(c.protocol) && IsWord(c.address)
  {
    var line := ToSdp(c);
    if IsWord(c.foundation) && IsWord(c.protocol) && IsWord(c.address) {
      PartsOf(c);
      SdpIsSpaced(c);
      PrintedParses(c.componentId, 0xFFFF);
      PrintedParses(c.priority, 0xFFFF_FFFF_FFFF_FFFF);
      PrintedParses(c.port, 0xFFFF);
      TypeNameIsWord(c.candidateType);
      hide SplitWhitespace, IsWord, IsWhitespace, ToSdp, Spaced, Printed, TypeName, ParseNumber, TypeNamed, Related;
      var parts := SplitWhitespace(line[|PREFIX|..]);
      assert forall i :: 0 <= i < 8 ==> parts[i] == parts[..8][i];
    } else {
      hide SplitWhitespace, IsWord, IsWhitespace, ToSdp, ParseNumber, TypeNamed;
    }
  }

  /**
   * Whatever line was read, however it was spaced and followed, printing what it says and reading that changes nothing.
   */
  lemma ParsedCandidatesRoundTrip(line: string, c: IceCandidate)
    requires FromSdp(line) == Some(c)
    ensures FromSdp(ToSdp(c)) == Some(c)
  {
    hide SplitWhitespace, IsWord, IsWhitespace, ToSdp, ParseNumber, TypeNamed;
    CandidatesRoundTripExactly(c);
  }
}
