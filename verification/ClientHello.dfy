/** Finding the host name and the Encrypted Client Hello extension in a ClientHello. */
module ClientHello {
  import opened Common

  const EXT_TYPE_SNI: nat := 0
  const EXT_TYPE_ECH: nat := 0xFE0D

  datatype Parsed =
    | Found(sniPos: int, sniLen: nat, echPos: int)
    | Incomplete
    | Malformed

  function Uint16(d: seq<byte>, p: nat): nat
    requires p + 2 <= |d|
  {
    d[p] as nat * 0x100 + d[p + 1] as nat
  }

  /** What the handshake header says the length of the message is. */
  function MessageLen(d: seq<byte>): nat
    requires 4 <= |d|
  {
    4 + d[1] as nat * 0x1_0000 + d[2] as nat * 0x100 + d[3] as nat
  }

  /** There is an extension of the given type at p, all of it within the message. */
  predicate ExtensionAt(d: seq<byte>, p: nat, extType: nat) {
    && p + 4 <= |d| && Uint16(d, p) == extType
    && p + 4 + Uint16(d, p + 2) <= |d|
  }

  function ExtensionEnd(d: seq<byte>, p: nat): nat
    requires p + 4 <= |d|
  {
    p + 4 + Uint16(d, p + 2)
  }

  /** In the SNI extension at p, the host name of length n is at pos: name type 0, its length, and the name itself. */
  predicate HostNameAt(d: seq<byte>, p: nat, pos: nat, n: nat) {
    && ExtensionAt(d, p, EXT_TYPE_SNI)
    && p + 9 <= pos && pos + n <= ExtensionEnd(d, p)
    && d[pos - 3] == 0 && Uint16(d, pos - 2) == n
  }

  /** The position behind a vector with a length of w octets; -1 if it does not fit. */
  function SkipVector(d: seq<byte>, pos: nat, w: nat): int
    requires w == 1 || w == 2
  {
    if pos + w > |d| then -1
    else
      var n := if w == 1 then d[pos] else Uint16(d, pos);
      if pos + w + n > |d| then -1 else pos + w + n
  }

  /**
   Where the extensions start, behind version, random, session ID, cipher suites and compression methods; -1 if there
   are none.
   */
  function ExtensionsStart(d: seq<byte>): int {
    if 4 + 2 + 32 > |d| then -1
    else
      var sessionEnd := SkipVector(d, 4 + 2 + 32, 1);
      if sessionEnd == -1 then -1
      else
        var suitesEnd := SkipVector(d, sessionEnd, 2);
        if suitesEnd == -1 then -1
        else
          var methodsEnd := SkipVector(d, suitesEnd, 1);
          if methodsEnd == -1 || SkipVector(d, methodsEnd, 2) == -1 then -1 else methodsEnd + 2
  }

  /** The first extension of that type from pos on; -1 if there is none. */
  function FirstExtension(d: seq<byte>, pos: nat, end: nat, extType: nat): int
    requires pos <= end <= |d|
    decreases end - pos
  {
    if pos + 4 > end || ExtensionEnd(d, pos) > end then -1
    else if Uint16(d, pos) == extType then pos
    else FirstExtension(d, ExtensionEnd(d, pos), end, extType)
  }

  /** The first name of type host_name in a list of names; -1 if there is none. */
  function FirstName(d: seq<byte>, pos: nat, end: nat): int
    requires pos <= end <= |d|
    decreases end - pos
  {
    if pos + 3 > end || pos + 3 + Uint16(d, pos + 1) > end then -1
    else if d[pos] == 0 then pos + 3
    else FirstName(d, pos + 3 + Uint16(d, pos + 1), end)
  }

  /** The host name in the SNI extension at p; -1 if there is none. */
  function HostNameIn(d: seq<byte>, p: nat): int
    requires ExtensionAt(d, p, EXT_TYPE_SNI)
  {
    if ExtensionEnd(d, p) < p + 6 then -1 else FirstName(d, p + 6, ExtensionEnd(d, p))
  }

  /** The first host name in an SNI extension from pos on; -1 if there is none. */
  function FirstHostName(d: seq<byte>, pos: nat, end: nat): int
    requires pos <= end <= |d|
    decreases end - pos
  {
    if pos + 4 > end || ExtensionEnd(d, pos) > end then -1
    else if Uint16(d, pos) == EXT_TYPE_SNI && HostNameIn(d, pos) != -1 then HostNameIn(d, pos)
    else FirstHostName(d, ExtensionEnd(d, pos), end)
  }

  /**
   The length of the first name of type host_name in a list of names; if there is none, of the last name, or else
   `last`.
   */
  function NameLen(d: seq<byte>, pos: nat, end: nat, last: nat): nat
    requires pos <= end <= |d|
    decreases end - pos
  {
    if pos + 3 > end || pos + 3 + Uint16(d, pos + 1) > end then last
    else if d[pos] == 0 then Uint16(d, pos + 1)
    else NameLen(d, pos + 3 + Uint16(d, pos + 1), end, Uint16(d, pos + 1))
  }

  function NameLenIn(d: seq<byte>, p: nat, last: nat): nat
    requires ExtensionAt(d, p, EXT_TYPE_SNI)
  {
    if ExtensionEnd(d, p) < p + 6 then last else NameLen(d, p + 6, ExtensionEnd(d, p), last)
  }

  /**
   The length of the first host name in an SNI extension; if there is none, of the last name listed, or else `last`.
   */
  function HostNameLen(d: seq<byte>, pos: nat, end: nat, last: nat): nat
    requires pos <= end <= |d|
    decreases end - pos
  {
    if pos + 4 > end || ExtensionEnd(d, pos) > end then last
    else if Uint16(d, pos) != EXT_TYPE_SNI then HostNameLen(d, ExtensionEnd(d, pos), end, last)
    else if HostNameIn(d, pos) != -1 then NameLenIn(d, pos, last)
    else HostNameLen(d, ExtensionEnd(d, pos), end, NameLenIn(d, pos, last))
  }

  /** No name runs over the end of the list, up to the first host name. */
  predicate NamesOk(d: seq<byte>, pos: nat, end: nat)
    requires pos <= end <= |d|
    decreases end - pos
  {
    || pos + 3 > end
    || (pos + 3 + Uint16(d, pos + 1) <= end && (d[pos] == 0 || NamesOk(d, pos + 3 + Uint16(d, pos + 1), end)))
  }

  /** The name list fills the SNI extension at p, and its names are in order. */
  predicate NameListOk(d: seq<byte>, p: nat)
    requires ExtensionAt(d, p, EXT_TYPE_SNI)
  {
    p + 6 <= ExtensionEnd(d, p) == p + 6 + Uint16(d, p + 4) && NamesOk(d, p + 6, ExtensionEnd(d, p))
  }

  datatype Extensions = InOrder | CutShort | Repeated

  /** Extensions from pos on, until both are found: whether one runs over the end, or one of the two comes twice. */
  function Check(d: seq<byte>, pos: nat, end: nat, sni: bool, ech: bool): Extensions
    requires pos <= end <= |d|
    decreases end - pos
  {
    if (sni && ech) || pos + 4 > end then InOrder
    else if ExtensionEnd(d, pos) > end then CutShort
    else if Uint16(d, pos) == EXT_TYPE_SNI then
      if sni then Repeated
      else if !NameListOk(d, pos) then CutShort
      else Check(d, ExtensionEnd(d, pos), end, HostNameIn(d, pos) != -1, ech)
    else if Uint16(d, pos) == EXT_TYPE_ECH then
      if ech then Repeated else Check(d, ExtensionEnd(d, pos), end, sni, true)
    else Check(d, ExtensionEnd(d, pos), end, sni, ech)
  }

  lemma StartIsBehindHeader(d: seq<byte>)
    requires ExtensionsStart(d) != -1
    ensures 4 < ExtensionsStart(d) && ExtensionsStart(d) + Uint16(d, ExtensionsStart(d) - 2) <= |d|
  {
  }

  /** What a buffer holds: one ClientHello, in order as far as it is looked at, or an incomplete or malformed one. */
  function Parse(d: seq<byte>): Parsed {
    if |d| < 4 then Incomplete
    else if d[0] != 1 then Malformed
    else if |d| != MessageLen(d) then Incomplete
    else
      var start := ExtensionsStart(d);
      if start == -1 then Incomplete
      else
        StartIsBehindHeader(d);
        var end := start + Uint16(d, start - 2);
        match Check(d, start, end, false, false)
        case CutShort => Incomplete
        case Repeated => Malformed
        case InOrder =>
          Found(FirstHostName(d, start, end), HostNameLen(d, start, end, 0),
                FirstExtension(d, start, end, EXT_TYPE_ECH))
  }

  method SkipToExtensions(d: seq<byte>) returns (start: int, length: nat)
    requires 4 <= |d|
    ensures start == ExtensionsStart(d)
    ensures start != -1 ==> 4 < start && start + length <= |d| && Uint16(d, start - 2) == length
  {
    var pos := 4;
    if pos + 2 > |d| || pos + 2 + 32 > |d| {
      return -1, 0;
    }
    pos := pos + 2 + 32;
    var p := SkipVector(d, pos, 1);
    if p == -1 {
      return -1, 0;
    }
    p := SkipVector(d, p, 2);
    if p == -1 {
      return -1, 0;
    }
    p := SkipVector(d, p, 1);
    if p == -1 || p + 2 > |d| {
      return -1, 0;
    }
    length := Uint16(d, p);
    start := p + 2;
    if start + length > |d| {
      return -1, 0;
    }
  }

  /**
   The first host name in the SNI extension at p, and its length; where there is none, the length of the last name, if
   any.
   */
  method FindHostName(d: seq<byte>, p: nat, lastLen: nat) returns (ok: bool, pos: int, n: nat)
    requires ExtensionAt(d, p, EXT_TYPE_SNI)
    ensures ok <==> NameListOk(d, p)
    ensures ok ==> pos == HostNameIn(d, p) && n == NameLenIn(d, p, lastLen)
    ensures pos != 0
  {
    var start, end := p + 4, ExtensionEnd(d, p);
    if end - start < 2 {
      return false, -1, 0;
    }
    var nameListLen := Uint16(d, start);
    if end - start != 2 + nameListLen {
      return false, -1, 0;
    }
    var listPos := 2;
    pos, n := -1, lastLen;
    while listPos + 3 <= nameListLen + 2
      invariant 2 <= listPos <= nameListLen + 2 && pos == -1
      invariant FirstName(d, start + listPos, end) == FirstName(d, start + 2, end)
      invariant NamesOk(d, start + listPos, end) == NamesOk(d, start + 2, end)
      invariant NameLen(d, start + listPos, end, n) == NameLen(d, start + 2, end, lastLen)
      decreases nameListLen - listPos
    {
      var nameType := d[start + listPos];
      n := Uint16(d, start + listPos + 1);
      if listPos + 3 + n > end - start {
        return false, -1, 0;
      }
      if nameType == 0 {
        pos := start + listPos + 3;
        break;
      }
      listPos := listPos + 3 + n;
    }
    ok := true;
  }

  method FindSNIAndECH(d: seq<byte>) returns (r: Parsed)
    ensures r == Parse(d)
  {
    if |d| < 4 {
      return Incomplete;
    }
    if d[0] != 1 {
      return Malformed;
    }
    if |d| != MessageLen(d) {
      return Incomplete;
    }
    var extensionsStart, extensionsLen := SkipToExtensions(d);
    if extensionsStart == -1 {
      return Incomplete;
    }
    var end := extensionsStart + extensionsLen;
    var pos, sniPos, sniLen, echPos := extensionsStart, -1, 0, -1;
    hide HostNameIn, NameLenIn, NameListOk, ExtensionsStart, MessageLen;
    while pos + 4 <= end
      invariant extensionsStart <= pos <= end && (sniPos == -1 || echPos == -1)
      invariant Check(d, extensionsStart, end, false, false) == Check(d, pos, end, sniPos != -1, echPos != -1)
      invariant FirstHostName(d, extensionsStart, end) == if sniPos == -1 then FirstHostName(d, pos, end) else sniPos
      invariant HostNameLen(d, extensionsStart, end, 0) ==
                  if sniPos == -1 then HostNameLen(d, pos, end, sniLen) else sniLen
      invariant FirstExtension(d, extensionsStart, end, EXT_TYPE_ECH) ==
                if echPos == -1 then FirstExtension(d, pos, end, EXT_TYPE_ECH) else echPos
      decreases end - pos
    {
      var extType, extLen := Uint16(d, pos), Uint16(d, pos + 2);
      if pos + 4 + extLen > end {
        return Incomplete;
      }
      if extType == EXT_TYPE_SNI {
        if sniPos != -1 {
          return Malformed;
        }
        var ok;
        ok, sniPos, sniLen := FindHostName(d, pos, sniLen);
        if !ok {
          return Incomplete;
        }
        if sniPos == 0 {
          assert false;
        }
      } else if extType == EXT_TYPE_ECH {
        if echPos != -1 {
          return Malformed;
        }
        echPos := pos;
      }
      pos := pos + 4 + extLen;
      if sniPos != -1 && echPos != -1 {
        break;
      }
    }
    r := Found(sniPos, sniLen, echPos);
  }

  // ---------------------------------------------------------------- what the positions mean

  lemma {:induction false} NameIsThere(d: seq<byte>, pos: nat, end: nat, last: nat)
    requires pos <= end <= |d|
    ensures NameLen(d, pos, end, last) <= Max(last, end)
    ensures var p, n := FirstName(d, pos, end), NameLen(d, pos, end, last);
            p != -1 ==> pos + 3 <= p && p + n <= end && d[p - 3] == 0 && Uint16(d, p - 2) == n
    decreases end - pos
  {
    if pos + 3 <= end && pos + 3 + Uint16(d, pos + 1) <= end && d[pos] != 0 {
      NameIsThere(d, pos + 3 + Uint16(d, pos + 1), end, Uint16(d, pos + 1));
    }
  }

  lemma HostNameIsThere(d: seq<byte>, p: nat, last: nat)
    requires ExtensionAt(d, p, EXT_TYPE_SNI)
    ensures NameLenIn(d, p, last) <= Max(last, |d|)
    ensures HostNameIn(d, p) != -1 ==> p < HostNameIn(d, p) && HostNameAt(d, p, HostNameIn(d, p), NameLenIn(d, p, last))
  {
    if p + 6 <= ExtensionEnd(d, p) {
      NameIsThere(d, p + 6, ExtensionEnd(d, p), last);
    }
  }

  /** Where the host name and the ECH extension are among the extensions from pos to end; the two do not overlap. */
  ghost predicate Positions(d: seq<byte>, pos: nat, end: nat, last: nat, sniExt: nat)
    requires pos <= end <= |d|
  {
    var h, n := FirstHostName(d, pos, end), HostNameLen(d, pos, end, last);
    var e := FirstExtension(d, pos, end, EXT_TYPE_ECH);
    && n <= Max(last, |d|)
    && (h != -1 ==> pos <= sniExt < h && HostNameAt(d, sniExt, h, n) && ExtensionEnd(d, sniExt) <= end)
    && (e != -1 ==> pos <= e && ExtensionAt(d, e, EXT_TYPE_ECH) && ExtensionEnd(d, e) <= end)
    && (h != -1 && e != -1 ==> ExtensionEnd(d, sniExt) <= e || ExtensionEnd(d, e) <= sniExt)
  }

  lemma {:induction false} PositionsAreRight(d: seq<byte>, pos: nat, end: nat, last: nat) returns (sniExt: nat)
    requires pos <= end <= |d|
    ensures Positions(d, pos, end, last, sniExt)
    decreases end - pos
  {
    hide HostNameIn, NameLenIn, HostNameAt;
    sniExt := pos;
    if pos + 4 <= end && ExtensionEnd(d, pos) <= end {
      var next := ExtensionEnd(d, pos);
      if Uint16(d, pos) == EXT_TYPE_SNI {
        HostNameIsThere(d, pos, last);
        var other := PositionsAreRight(d, next, end, NameLenIn(d, pos, last));
        sniExt := if HostNameIn(d, pos) != -1 then pos else other;
      } else {
        sniExt := PositionsAreRight(d, next, end, last);
      }
    }
  }

  /**
   In a ClientHello the host name is in an SNI extension, behind its type and its length; the ECH extension is where it
   is said to be; a host name in front of it ends before it; and both are behind the handshake header.
   */
  lemma ParsedIsThere(d: seq<byte>) returns (sniExt: nat)
    requires Parse(d).Found?
    ensures var r := Parse(d);
            && r.sniLen <= |d|
            && (r.sniPos != -1 ==>
                  4 < sniExt < r.sniPos && HostNameAt(d, sniExt, r.sniPos, r.sniLen) && r.sniPos + r.sniLen <= |d|)
            && (r.echPos != -1 ==> 4 < r.echPos && r.echPos + 4 <= |d| && ExtensionAt(d, r.echPos, EXT_TYPE_ECH))
            && (r.sniPos != -1 && r.echPos != -1 ==> r.sniPos + r.sniLen <= r.echPos || r.echPos + 4 <= sniExt)
  {
    var start := ExtensionsStart(d);
    StartIsBehindHeader(d);
    sniExt := PositionsAreRight(d, start, start + Uint16(d, start - 2), 0);
  }

  // -------------------------------------------------- two ClientHellos that the scrambling does not cope with

  /** Without session ID, cipher suites and compression methods, and with extensions of the given length. */
  predicate IsBare(d: seq<byte>, length: nat) {
    && |d| == 44 + length < 256 && d[0] == 1 && d[1] == 0 && d[2] == 0 && d[3] as nat == 40 + length
    && d[38] == 0 && d[39] == 0 && d[40] == 0 && d[41] == 0 && d[42] == 0 && d[43] as nat == length
  }

  lemma BareStart(d: seq<byte>, length: nat)
    requires IsBare(d, length)
    ensures |d| == MessageLen(d) && ExtensionsStart(d) == 44 && Uint16(d, 42) == length
  {
  }

  /** An empty ECH extension, and no other. */
  function EchHello(): seq<byte> {
    seq(48, i => if i == 0 then 1 else if i == 3 then 44 else if i == 43 then 4
                 else if i == 44 then 0xFE else if i == 45 then 0x0D else 0)
  }

  lemma EchHelloParsed()
    ensures Parse(EchHello()) == Found(-1, 0, 44)
  {
    var d := EchHello();
    BareStart(d, 4);
    assert d[44] == 0xFE && d[45] == 0x0D && d[46] == 0 && d[47] == 0;
    assert Uint16(d, 44) == EXT_TYPE_ECH && ExtensionEnd(d, 44) == 48;
    hide ExtensionsStart, MessageLen;
    assert Check(d, 48, 48, false, true) == InOrder;
    assert FirstHostName(d, 48, 48) == -1 && HostNameLen(d, 48, 48, 0) == 0;
  }

  /** An SNI extension with an empty host name, and no other. */
  function EmptyNameHello(): seq<byte> {
    seq(53, i => if i == 0 then 1 else if i == 3 then 49 else if i == 43 then 9
                 else if i == 47 then 5 else if i == 49 then 3 else 0)
  }

  lemma EmptyNameHelloParsed()
    ensures Parse(EmptyNameHello()) == Found(53, 0, -1)
  {
    var d := EmptyNameHello();
    BareStart(d, 9);
    assert d[44] == 0 && d[45] == 0 && d[46] == 0 && d[47] == 5 && d[48] == 0 && d[49] == 3 && d[50] == 0 && d[51] == 0;
    assert d[52] == 0;
    assert Uint16(d, 44) == EXT_TYPE_SNI && ExtensionEnd(d, 44) == 53 && Uint16(d, 48) == 3 && Uint16(d, 51) == 0;
    hide ExtensionsStart, MessageLen;
    assert NamesOk(d, 50, 53) && FirstName(d, 50, 53) == 53 && NameLen(d, 50, 53, 0) == 0;
    assert NameListOk(d, 44) && HostNameIn(d, 44) == 53 && NameLenIn(d, 44, 0) == 0;
    assert Check(d, 53, 53, true, false) == InOrder;
    assert FirstExtension(d, 53, 53, EXT_TYPE_ECH) == -1;
  }
}
