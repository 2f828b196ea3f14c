// ICE candidates of a session description: what stringifyCandidate prints, split with
// splitOneOf, is read back by processCandidate.
module Candidates {
  import opened Options
  import opened Integers

  const ULONG_MAX: nat := 0xFFFF_FFFF_FFFF_FFFF

  datatype HostType = HOST | SRFLX | PRFLX | RELAY

  datatype MediaType = VIDEO_TYPE | AUDIO_TYPE | OTHER_TYPE

  datatype CandidateInfo = CandidateInfo(mediaType: MediaType, foundation: string, componentId: u32, netProtocol: string, priority: u32,
                                         hostAddress: string, hostPort: i32, hostType: HostType, rAddress: string, rPort: i32)

  // ---- splitOneOf ----------------------------------------------------------------------

  // find_first_of; the length of the string stands for npos.
  function FindFirstOf(s: string, delims: string): (pos: nat)
    ensures pos <= |s| && (forall i :: 0 <= i < pos ==> s[i] !in delims) && (pos < |s| ==> s[pos] in delims)
  {
    if s == [] || s[0] in delims then 0 else 1 + FindFirstOf(s[1..], delims)
  }

  // At most maxSplits splits, or any number if it is 0. Adjacent delimiters leave an
  // empty piece between them; an empty rest leaves none.
  function Split(s: string, delims: string, maxSplits: nat, splits: nat): seq<string>
    decreases |s|
  {
    var pos := FindFirstOf(s, delims);
    if (maxSplits == 0 || splits < maxSplits) && pos < |s| then [s[..pos]] + Split(s[pos + 1..], delims, maxSplits, splits + 1)
    else if |s| > 0 then [s]
    else []
  }

  method SplitOneOf(str: string, delims: string, maxSplits: nat) returns (result: seq<string>)
    ensures result == Split(str, delims, maxSplits, 0)
  {
    var remaining, splits := str, 0;
    result := [];
    var pos := FindFirstOf(remaining, delims);
    while (maxSplits == 0 || splits < maxSplits) && pos < |remaining|
      invariant pos == FindFirstOf(remaining, delims)
      invariant result + Split(remaining, delims, maxSplits, splits) == Split(str, delims, maxSplits, 0)
      decreases |remaining|
    {
      result := result + [remaining[..pos]];
      remaining := remaining[pos + 1..];
      splits := splits + 1;
      pos := FindFirstOf(remaining, delims);
    }
    if |remaining| > 0 {
      result := result + [remaining];
    }
  }

  predicate Clean(s: string, delims: string) { forall c :: c in s ==> c !in delims }

  // The pieces with single delimiters between them make up the string; one delimiter at
  // the end may be missing.
  ghost predicate MakesUp(ps: seq<string>, s: string, delims: string) {
    if ps == [] then s == []
    else
      && ps[0] <= s
      && (s == ps[0] ==> |ps| == 1)
      && (s != ps[0] ==> s[|ps[0]|] in delims && MakesUp(ps[1..], s[|ps[0]| + 1..], delims))
  }

  // For any string, delimiters and limit: the pieces make up the string, and hold no
  // delimiter, except that the last may if the limit has been reached; nothing is split
  // beyond it.
  lemma {:induction false} SplitExactly(s: string, delims: string, maxSplits: nat, splits: nat)
    requires maxSplits == 0 || splits <= maxSplits
    ensures var ps := Split(s, delims, maxSplits, splits);
      && MakesUp(ps, s, delims)
      && (forall i :: 0 <= i < |ps| ==> Clean(ps[i], delims) || (i == |ps| - 1 && maxSplits > 0 && |ps| == maxSplits - splits + 1))
      && (maxSplits > 0 ==> |ps| <= maxSplits - splits + 1)
    decreases |s|
  {
    var pos := FindFirstOf(s, delims);
    CleanBefore(s, delims, pos);
    if (maxSplits == 0 || splits < maxSplits) && pos < |s| {
      SplitExactly(s[pos + 1..], delims, maxSplits, splits + 1);
      var rest := Split(s[pos + 1..], delims, maxSplits, splits + 1);
      FirstPiece(s, pos, rest, delims);
      assert Split(s, delims, maxSplits, splits) == [s[..pos]] + rest;
      hide Split, Clean, MakesUp, FindFirstOf;
    } else {
      assert s[..|s|] == s;
    }
  }

  lemma FirstPiece(s: string, pos: nat, rest: seq<string>, delims: string)
    requires pos < |s| && s[pos] in delims && MakesUp(rest, s[pos + 1..], delims)
    ensures MakesUp([s[..pos]] + rest, s, delims)
  {
    var ps := [s[..pos]] + rest;
    assert ps[1..] == rest && |ps[0]| == pos;
  }

  lemma CleanBefore(s: string, delims: string, pos: nat)
    requires pos <= |s| && forall i :: 0 <= i < pos ==> s[i] !in delims
    ensures Clean(s[..pos], delims)
  {
  }

  // A piece that holds no delimiter comes out whole, one that holds any does not.
  lemma SplitHead(piece: string, d: char, rest: string, delims: string, splits: nat)
    requires d in delims
    ensures var ps := Split(piece + [d] + rest, delims, 0, splits);
      && ps != []
      && (Clean(piece, delims) ==> ps == [piece] + Split(rest, delims, 0, splits + 1))
      && (!Clean(piece, delims) ==> ps[0] != piece)
  {
    var s := piece + [d] + rest;
    var pos := FindFirstOf(s, delims);
    assert s[|piece|] == d;
    if Clean(piece, delims) {
      assert forall i :: 0 <= i < |piece| ==> s[i] == piece[i] && piece[i] in piece;
      assert pos == |piece| && s[..pos] == piece && s[pos + 1..] == rest;
    } else {
      var c :| c in piece && c in delims;
      var i :| 0 <= i < |piece| && piece[i] == c;
      assert s[i] == c;
    }
  }

  lemma SplitWhole(piece: string, delims: string, splits: nat)
    requires Clean(piece, delims) && piece != []
    ensures Split(piece, delims, 0, splits) == [piece]
  {
    assert forall i :: 0 <= i < |piece| ==> piece[i] in piece;
  }

  // Words with single spaces between them.
  function Join(words: seq<string>): string
    requires words != []
  {
    if |words| == 1 then words[0] else words[0] + " " + Join(words[1..])
  }

  lemma {:induction false} JoinAppend(words: seq<string>, w: string)
    requires words != []
    ensures Join(words + [w]) == Join(words) + " " + w
  {
    if |words| > 1 {
      JoinAppend(words[1..], w);
      assert (words + [w])[1..] == words[1..] + [w];
    }
  }

  const DELIMS: string := " :"

  // Splitting undoes joining, up to the first word that is not clean; that one does not
  // come out as it was.
  lemma {:induction false} PieceAt(words: seq<string>, k: nat, splits: nat)
    requires k < |words| && words[|words| - 1] != [] && Clean(words[|words| - 1], DELIMS)
    requires forall i :: 0 <= i < k ==> Clean(words[i], DELIMS)
    ensures var ps := Split(Join(words), DELIMS, 0, splits);
      |ps| > k && ps[..k] == words[..k] && (ps[k] == words[k] <==> Clean(words[k], DELIMS))
    decreases k
  {
    hide Split, Clean;
    if |words| == 1 {
      SplitWhole(words[0], DELIMS, splits);
    } else {
      assert Join(words) == words[0] + [' '] + Join(words[1..]);
      SplitHead(words[0], ' ', Join(words[1..]), DELIMS, splits);
      hide Join;
      if k > 0 {
        PieceAt(words[1..], k - 1, splits + 1);
        assert words[..k] == [words[0]] + words[1..][..k - 1];
      }
    }
  }

  lemma {:induction false} AllPieces(words: seq<string>, splits: nat)
    requires words != [] && words[|words| - 1] != [] && forall i :: 0 <= i < |words| ==> Clean(words[i], DELIMS)
    ensures Split(Join(words), DELIMS, 0, splits) == words
  {
    hide Split, Clean;
    if |words| == 1 {
      SplitWhole(words[0], DELIMS, splits);
    } else {
      assert Join(words) == words[0] + [' '] + Join(words[1..]);
      SplitHead(words[0], ' ', Join(words[1..]), DELIMS, splits);
      AllPieces(words[1..], splits + 1);
    }
  }

  // ---- Decimal numerals -----------------------------------------------------------------

  predicate IsDigit(c: char) { '0' <= c <= '9' }

  function Digit(n: nat): (c: char)
    requires n < 10
    ensures IsDigit(c) && DigitValue(c) == n
  {
    ('0' as int + n) as char
  }

  function DigitValue(c: char): nat
    requires IsDigit(c)
  {
    c as int - '0' as int
  }

  // An unsigned int, and a signed one, as an output stream prints them.

  function Decimal(n: nat): (s: string)
    ensures s != [] && forall c :: c in s ==> IsDigit(c)
  {
    if n < 10 then [Digit(n)] else Decimal(n / 10) + [Digit(n % 10)]
  }

  function DecimalInt(n: int): (s: string)
    ensures s != [] && forall c :: c in s ==> IsDigit(c) || c == '-'
  {
    if n < 0 then "-" + Decimal(-n) else Decimal(n)
  }

  // The digits that a string begins with.
  function LeadingDigits(s: string, acc: nat): nat {
    if s != [] && IsDigit(s[0]) then LeadingDigits(s[1..], 10 * acc + DigitValue(s[0])) else acc
  }

  predicate IsSpace(c: char) { c == ' ' || '\t' as int <= c as int <= '\r' as int }

  // strtoul with base 10 and a 64-bit unsigned long.
  function Strtoul(s: string): (n: nat)
    ensures n <= ULONG_MAX
  {
    if s == [] then 0
    else if IsSpace(s[0]) then Strtoul(s[1..])
    else
      var v := LeadingDigits(if s[0] == '-' || s[0] == '+' then s[1..] else s, 0);
      if v > ULONG_MAX then ULONG_MAX
      else if s[0] == '-' then (ULONG_MAX + 1 - v) % (ULONG_MAX + 1)
      else v
  }

  // The cast to unsigned int, and the assignment of it to an int.

  function ParseUnsigned(s: string): u32 { Strtoul(s) % 0x1_0000_0000 }

  function ParseInt(s: string): i32 {
    var u := ParseUnsigned(s);
    if u < 0x8000_0000 then u else u - 0x1_0000_0000
  }

  lemma {:induction false} LeadingDigitsAppend(s: string, c: char, acc: nat)
    requires IsDigit(c) && forall x :: x in s ==> IsDigit(x)
    ensures LeadingDigits(s + [c], acc) == 10 * LeadingDigits(s, acc) + DigitValue(c)
    decreases |s|
  {
    if s == [] {
      assert s + [c] == [c];
    } else {
      assert s[0] in s;
      var next := 10 * acc + DigitValue(s[0]);
      assert (s + [c])[1..] == s[1..] + [c];
      LeadingDigitsAppend(s[1..], c, next);
    }
  }

  lemma {:induction false} DecimalReadBack(n: nat)
    ensures LeadingDigits(Decimal(n), 0) == n
  {
    if n < 10 {
      assert Decimal(n)[1..] == [];
    } else {
      DecimalReadBack(n / 10);
      LeadingDigitsAppend(Decimal(n / 10), Digit(n % 10), 0);
      hide Decimal, LeadingDigits;
    }
  }

  // Numbers survive, negative ones through the wrap-around of strtoul and of the cast.
  lemma NumbersReadBack(u: u32, i: i32)
    ensures ParseUnsigned(Decimal(u)) == u && ParseInt(DecimalInt(i)) == i
  {
    hide Strtoul, Decimal;
    StrtoulOfDecimal(u);
    var n: int := i;
    if n < 0 {
      StrtoulOfDecimal(-n);
      WrapTwice(n);
    } else {
      StrtoulOfDecimal(n);
    }
  }

  lemma WrapTwice(n: int)
    requires -0x8000_0000 <= n < 0
    ensures (ULONG_MAX + 1 + n) % (ULONG_MAX + 1) % 0x1_0000_0000 == 0x1_0000_0000 + n
  {
    assert ULONG_MAX + 1 + n == 0xFFFF_FFFF * 0x1_0000_0000 + (0x1_0000_0000 + n);
  }

  lemma StrtoulOfDecimal(n: nat)
    requires n <= ULONG_MAX
    ensures Strtoul(Decimal(n)) == n && Strtoul("-" + Decimal(n)) == (ULONG_MAX + 1 - n) % (ULONG_MAX + 1)
  {
    DecimalReadBack(n);
    var s := Decimal(n);
    assert s[0] in s && ("-" + s)[1..] == s;
    hide Decimal, LeadingDigits;
  }

  lemma NumbersAreClean(n: nat, i: int)
    ensures Clean(Decimal(n), DELIMS) && Clean(DecimalInt(i), DELIMS)
  {
  }

  // ---- stringifyCandidate and processCandidate ---------------------------------------------

  function TypeName(t: HostType): string {
    match t
    case HOST => "host"
    case SRFLX => "srflx"
    case PRFLX => "prflx"
    case RELAY => "relay"
  }

  // An unknown type counts as a host candidate.
  function TypeOf(name: string): HostType {
    if name == "srflx" then SRFLX else if name == "prflx" then PRFLX else if name == "relay" then RELAY else HOST
  }

  predicate Related(t: HostType) { t == SRFLX || t == RELAY }

  const TAG: string := "a=candidate"

  // The words of the line behind its tag.
  function Words(c: CandidateInfo): (ws: seq<string>)
    ensures |ws| == if Related(c.hostType) then 14 else 10
  {
    [c.foundation, Decimal(c.componentId), c.netProtocol, Decimal(c.priority), c.hostAddress, DecimalInt(c.hostPort), "typ", TypeName(c.hostType)]
    + (if Related(c.hostType) then ["raddr", c.rAddress, "rport", DecimalInt(c.rPort)] else [])
    + ["generation", "0"]
  }

  // The line as one word for the tag, a colon, and the other words.
  function Line(c: CandidateInfo): string { TAG + ":" + Join(Words(c)) }

  function Piece(pieces: seq<string>, i: nat): string { if i < |pieces| then pieces[i] else "" }

  predicate IsUdp(netProtocol: string) { netProtocol == "UDP" || netProtocol == "udp" }

  // What processCandidate appends, if anything. A candidate that is not related to
  // another address leaves that address unset.
  function Parse(pieces: seq<string>, mediaType: MediaType): Option<CandidateInfo> {
    if !IsUdp(Piece(pieces, 3)) || Piece(pieces, 7) != "typ" then None
    else
      var t := TypeOf(Piece(pieces, 8));
      Some(CandidateInfo(mediaType, Piece(pieces, 1), ParseUnsigned(Piece(pieces, 2)), Piece(pieces, 3), ParseUnsigned(Piece(pieces, 4)),
                         Piece(pieces, 5), ParseInt(Piece(pieces, 6)), t,
                         if Related(t) then Piece(pieces, 10) else "", if Related(t) then ParseInt(Piece(pieces, 12)) else 0))
  }

  // processCandidate reads as many pieces as it needs without asking how many there are.
  predicate EnoughPieces(pieces: seq<string>) {
    && |pieces| > 3
    && (IsUdp(pieces[3]) ==> |pieces| > 7 && (pieces[7] == "typ" ==> |pieces| > 8 && (Related(TypeOf(pieces[8])) ==> |pieces| > 12)))
  }

  // The fields that a printed line carries.
  ghost predicate Same(c: CandidateInfo, d: CandidateInfo) {
    && c.foundation == d.foundation && c.componentId == d.componentId && c.netProtocol == d.netProtocol && c.priority == d.priority
    && c.hostAddress == d.hostAddress && c.hostPort == d.hostPort && c.hostType == d.hostType
    && (c.hostType == SRFLX || c.hostType == RELAY ==> c.rAddress == d.rAddress && c.rPort == d.rPort)
  }

  // No field breaks the line apart. An IPv6 address does.
  predicate Printable(c: CandidateInfo) {
    && Clean(c.foundation, " :") && (c.netProtocol == "UDP" || c.netProtocol == "udp") && Clean(c.hostAddress, " :")
    && (c.hostType == SRFLX || c.hostType == RELAY ==> Clean(c.rAddress, " :"))
  }

  // The words of a line, one by one.
  lemma WordsAre(c: CandidateInfo)
    ensures TAG == "a=candidate" && (Related(c.hostType) <==> c.hostType == SRFLX || c.hostType == RELAY)
    ensures TypeName(c.hostType) == match c.hostType case HOST => "host" case SRFLX => "srflx" case PRFLX => "prflx" case RELAY => "relay"
    ensures var ws := Words(c);
      && ws[0] == c.foundation && ws[1] == Decimal(c.componentId) && ws[2] == c.netProtocol && ws[3] == Decimal(c.priority)
      && ws[4] == c.hostAddress && ws[5] == DecimalInt(c.hostPort) && ws[6] == "typ" && ws[7] == TypeName(c.hostType)
      && (if Related(c.hostType)
          then ws[8] == "raddr" && ws[9] == c.rAddress && ws[10] == "rport" && ws[11] == DecimalInt(c.rPort) && ws[12] == "generation" && ws[13] == "0"
          else ws[8] == "generation" && ws[9] == "0")
  {
    hide Decimal, DecimalInt;
  }

  lemma FixedWordsClean(t: HostType)
    ensures Clean("typ", DELIMS) && Clean(TypeName(t), DELIMS) && Clean("raddr", DELIMS) && Clean("rport", DELIMS)
    ensures Clean("generation", DELIMS) && Clean("0", DELIMS) && Clean("UDP", DELIMS) && Clean("udp", DELIMS) && Clean(TAG, DELIMS)
  {
  }

  lemma TypeReadBack(t: HostType)
    ensures TypeOf(TypeName(t)) == t
    ensures forall name :: name != "srflx" && name != "prflx" && name != "relay" ==> TypeOf(name) == HOST
  {
  }

  // The words of the line that its strings do not decide.
  lemma OtherWordsClean(c: CandidateInfo, k: nat)
    requires k < |Words(c)| && k != 0 && k != 2 && k != 4 && (Related(c.hostType) ==> k != 9)
    ensures Clean(Words(c)[k], DELIMS)
  {
    WordsAre(c);
    FixedWordsClean(c.hostType);
    NumbersAreClean(c.componentId, c.hostPort);
    NumbersAreClean(c.priority, c.rPort);
    hide Words, Clean, Decimal, DecimalInt, TypeName;
  }

  lemma TagSplits(rest: string)
    ensures Split(TAG + ":" + rest, DELIMS, 0, 0) == [TAG] + Split(rest, DELIMS, 0, 1)
  {
    hide Split, Clean;
    FixedWordsClean(HOST);
    SplitHead(TAG, ':', rest, DELIMS, 0);
    assert TAG + ":" + rest == TAG + [':'] + rest;
  }

  lemma LineSplits(c: CandidateInfo, k: nat)
    requires k < |Words(c)| && forall i :: 0 <= i < k ==> Clean(Words(c)[i], DELIMS)
    ensures var ps := Split(Line(c), DELIMS, 0, 0);
      && |ps| > k + 1
      && (forall i :: 0 <= i < k ==> ps[i + 1] == Words(c)[i])
      && (ps[k + 1] == Words(c)[k] <==> Clean(Words(c)[k], DELIMS))
  {
    hide Split, Clean, Join, Words, Decimal, DecimalInt;
    var ws := Words(c);
    TagSplits(Join(ws));
    WordsAre(c);
    FixedWordsClean(c.hostType);
    PieceAt(ws, k, 1);
    var rest := Split(Join(ws), DELIMS, 0, 1);
    assert forall i :: 0 <= i < k ==> rest[..k][i] == ws[..k][i];
  }

  lemma PrintableReadBack(c: CandidateInfo, mediaType: MediaType)
    requires Printable(c)
    ensures var ps := Split(Line(c), DELIMS, 0, 0);
      EnoughPieces(ps) && Parse(ps, mediaType).Some? && Same(Parse(ps, mediaType).value, c) && Parse(ps, mediaType).value.mediaType == mediaType
  {
    hide Split, Clean, Words, Line, Decimal, DecimalInt, ParseUnsigned, ParseInt, TypeName, TypeOf;
    WordsAre(c);
    FixedWordsClean(c.hostType);
    forall i | 0 <= i < |Words(c)|
      ensures Clean(Words(c)[i], DELIMS)
    {
      if i != 0 && i != 2 && i != 4 && (Related(c.hostType) ==> i != 9) {
        OtherWordsClean(c, i);
      }
    }
    LineSplits(c, |Words(c)| - 1);
    NumbersReadBack(c.componentId, c.hostPort);
    NumbersReadBack(c.priority, c.rPort);
    TypeReadBack(c.hostType);
  }

  lemma UnprintableNotReadBack(c: CandidateInfo, mediaType: MediaType, k: nat)
    requires k < |Words(c)| && !Clean(Words(c)[k], DELIMS) && forall i :: 0 <= i < k ==> Clean(Words(c)[i], DELIMS)
    requires k == 0 || k == 2 || k == 4 || (k == 9 && Related(c.hostType))
    ensures var p := Parse(Split(Line(c), DELIMS, 0, 0), mediaType);
      p.Some? ==> !Same(p.value, c)
  {
    hide Split, Clean, Words, Line, Decimal, DecimalInt, ParseUnsigned, ParseInt, TypeName, TypeOf;
    WordsAre(c);
    LineSplits(c, k);
  }

  // Printing and parsing are inverse exactly for the UDP candidates whose strings hold
  // no space and no colon.
  lemma PrintedReadBack(c: CandidateInfo, mediaType: MediaType)
    ensures var p := Parse(Split(Line(c), DELIMS, 0, 0), mediaType);
      Printable(c) <==> p.Some? && Same(p.value, c)
  {
    hide Split, Clean, Words, Line, Decimal, DecimalInt, TypeName, TypeOf, Parse;
    WordsAre(c);
    FixedWordsClean(c.hostType);
    if Printable(c) {
      PrintableReadBack(c, mediaType);
    } else {
      Unprintable(c, mediaType);
    }
  }

  lemma Unprintable(c: CandidateInfo, mediaType: MediaType)
    requires !Printable(c)
    ensures var p := Parse(Split(Line(c), DELIMS, 0, 0), mediaType);
      p.Some? ==> !Same(p.value, c)
  {
    hide Split, Clean, Words, Line, Decimal, DecimalInt, TypeName, TypeOf;
    WordsAre(c);
    FixedWordsClean(c.hostType);
    forall i | 0 <= i < |Words(c)| && i != 0 && i != 2 && i != 4 && (Related(c.hostType) ==> i != 9)
      ensures Clean(Words(c)[i], DELIMS)
    {
      OtherWordsClean(c, i);
    }
    if !Clean(c.foundation, DELIMS) {
      UnprintableNotReadBack(c, mediaType, 0);
    } else if !Clean(c.netProtocol, DELIMS) {
      UnprintableNotReadBack(c, mediaType, 2);
    } else if !IsUdp(c.netProtocol) {
      LineSplits(c, 2);
    } else if !Clean(c.hostAddress, DELIMS) {
      UnprintableNotReadBack(c, mediaType, 4);
    } else {
      UnprintableNotReadBack(c, mediaType, 9);
    }
  }

  // So the line of a candidate with an IPv6 address is not read back: every such address
  // holds a colon.
  lemma ColonNotReadBack(c: CandidateInfo, mediaType: MediaType)
    requires ':' in c.hostAddress
    ensures var p := Parse(Split(Line(c), DELIMS, 0, 0), mediaType);
      p.Some? ==> !Same(p.value, c)
  {
    assert DELIMS[1] == ':' && ':' in DELIMS;
    assert !Clean(c.hostAddress, DELIMS);
    hide Split, Line, Parse, Clean;
    PrintedReadBack(c, mediaType);
  }

  method TypeOfPiece(piece: string) returns (t: HostType)
    ensures t == TypeOf(piece)
  {
    var names := ["host", "srflx", "prflx", "relay"];
    var kind := 1111;
    for p := 0 to 4
      invariant kind == 1111 || (0 <= kind < p && names[kind] == piece)
      invariant kind == 1111 ==> forall q :: 0 <= q < p ==> names[q] != piece
    {
      if piece == names[p] {
        kind := p;
      }
    }
    assert names[0] == TypeName(HOST) && names[1] == TypeName(SRFLX) && names[2] == TypeName(PRFLX) && names[3] == TypeName(RELAY);
    if kind == 1 {
      t := SRFLX;
    } else if kind == 2 {
      t := PRFLX;
    } else if kind == 3 {
      t := RELAY;
    } else {
      t := HOST;
    }
  }

  class SdpInfo {
    var candidateVector: seq<CandidateInfo>

    constructor ()
      ensures candidateVector == []
    {
      candidateVector := [];
    }

    // The output stream takes one field after the other.
    method StringifyCandidate(candidate: CandidateInfo) returns (sdp: string)
      ensures sdp == Line(candidate)
    {
      hide Join, Decimal, DecimalInt, TypeName, Clean;
      ghost var ws := [candidate.foundation];
      JoinOne(candidate.foundation);
      sdp := TAG + ":" + candidate.foundation;
      sdp, ws := Put(sdp, Decimal(candidate.componentId), ws);
      sdp, ws := Put(sdp, candidate.netProtocol, ws);
      sdp, ws := Put(sdp, Decimal(candidate.priority), ws);
      sdp, ws := Put(sdp, candidate.hostAddress, ws);
      sdp, ws := Put(sdp, DecimalInt(candidate.hostPort), ws);
      sdp, ws := Put(sdp, "typ", ws);
      sdp, ws := Put(sdp, TypeName(candidate.hostType), ws);
      ghost var first := ws;
      assert first == Words(candidate)[..8];
      if Related(candidate.hostType) {
        sdp, ws := Put(sdp, "raddr", ws);
        sdp, ws := Put(sdp, candidate.rAddress, ws);
        sdp, ws := Put(sdp, "rport", ws);
        sdp, ws := Put(sdp, DecimalInt(candidate.rPort), ws);
        assert ws == first + ["raddr", candidate.rAddress, "rport", DecimalInt(candidate.rPort)];
      }
      assert ws == Words(candidate)[..|Words(candidate)| - 2];
      sdp, ws := Put(sdp, "generation", ws);
      sdp, ws := Put(sdp, "0", ws);
      assert ws == Words(candidate);
    }

    // One more word, with a space in front.
    static method Put(sdp: string, w: string, ghost ws: seq<string>) returns (line: string, ghost words: seq<string>)
      requires ws != [] && sdp == TAG + ":" + Join(ws)
      ensures words == ws + [w] && line == TAG + ":" + Join(words)
    {
      hide Join;
      JoinAppend(ws, w);
      line, words := sdp + " " + w, ws + [w];
      assert TAG + ":" + (Join(ws) + " " + w) == TAG + ":" + Join(ws) + " " + w;
    }

    method AddCandidate(info: CandidateInfo) returns (sdp: string)
      modifies this
      ensures candidateVector == old(candidateVector) + [info] && sdp == Line(info)
    {
      candidateVector := candidateVector + [info];
      sdp := StringifyCandidate(info);
    }

    method ProcessCandidate(pieces: seq<string>, mediaType: MediaType) returns (ok: bool)
      requires EnoughPieces(pieces)
      modifies this
      ensures var p := Parse(pieces, mediaType);
        && ok == p.Some?
        && (ok <==> (pieces[3] == "UDP" || pieces[3] == "udp") && |pieces| > 7 && pieces[7] == "typ")
        && candidateVector == if p.Some? then old(candidateVector) + [p.value] else old(candidateVector)
    {
      hide ParseUnsigned, ParseInt, TypeOf;
      var foundation, componentId, netProtocol := pieces[1], ParseUnsigned(pieces[2]), pieces[3];
      if netProtocol != "UDP" && netProtocol != "udp" {
        return false;
      }
      var priority, hostAddress, hostPort := ParseUnsigned(pieces[4]), pieces[5], ParseInt(pieces[6]);
      if pieces[7] != "typ" {
        return false;
      }
      var hostType := TypeOfPiece(pieces[8]);
      var rAddress: string, rPort: i32 := "", 0;
      if hostType == SRFLX || hostType == RELAY {
        rAddress, rPort := pieces[10], ParseInt(pieces[12]);
      }
      var cand := CandidateInfo(mediaType, foundation, componentId, netProtocol, priority, hostAddress, hostPort, hostType, rAddress, rPort);
      candidateVector := candidateVector + [cand];
      ok := true;
    }
  }

  lemma JoinOne(w: string)
    ensures Join([w]) == w
  {
  }
}
