/** The 61 predefined header fields (Appendix A of RFC 7541) and the two
    linear searches the encoder makes in them. */
module StaticTable {
  import opened Bits
  import opened Fields

  function H(name: string, value: string): Header {
    Header(Ascii(name), Ascii(value))
  }

  const PSEUDO: seq<Header> := [
    H(":authority", ""),
    H(":method", "GET"),
    H(":method", "POST"),
    H(":path", "/"),
    H(":path", "/index.html"),
    H(":scheme", "http"),
    H(":scheme", "https"),
    H(":status", "200"),
    H(":status", "204"),
    H(":status", "206"),
    H(":status", "304"),
    H(":status", "400"),
    H(":status", "404"),
    H(":status", "500")
  ]

  const ACCEPT: seq<Header> := [
    H("accept-charset", ""),
    H("accept-encoding", ""),
    H("accept-language", ""),
    H("accept-ranges", ""),
    H("accept", ""),
    H("access-control-allow-origin", ""),
    H("age", ""),
    H("allow", "")
  ]

  const CONTENT: seq<Header> := [
    H("authorization", ""),
    H("cache-control", ""),
    H("content-disposition", ""),
    H("content-encoding", ""),
    H("content-language", ""),
    H("content-length", ""),
    H("content-location", ""),
    H("content-range", ""),
    H("content-type", ""),
    H("cookie", "")
  ]

  const CONDITIONS: seq<Header> := [
    H("date", ""),
    H("etag", ""),
    H("expect", ""),
    H("expires", ""),
    H("from", ""),
    H("host", ""),
    H("if-match", ""),
    H("if-modified-since", ""),
    H("if-none-match", ""),
    H("if-range", ""),
    H("if-unmodified-since", "")
  ]

  const LOCATION: seq<Header> := [
    H("last-modified", ""),
    H("link", ""),
    H("location", ""),
    H("max-forwards", ""),
    H("proxy-authenticate", ""),
    H("proxy-authorization", ""),
    H("range", ""),
    H("referer", ""),
    H("refresh", ""),
    H("retry-after", "")
  ]

  const SERVER: seq<Header> := [
    H("server", ""),
    H("set-cookie", ""),
    H("strict-transport-security", ""),
    H("transfer-encoding", ""),
    H("user-agent", ""),
    H("vary", ""),
    H("via", ""),
    H("www-authenticate", "")
  ]

  const STATIC: seq<Header> := PSEUDO + ACCEPT + CONTENT + CONDITIONS + LOCATION + SERVER

  const STATIC_SIZE: nat := 61

  lemma StaticLength()
    ensures |STATIC| == STATIC_SIZE
  {
  }

  /** The first position, counted from one, at or after `i` of the field `f`;
      zero when it does not occur. */
  function FindField(fields: seq<Header>, f: Header, i: nat): (idx: nat)
    requires i <= |fields|
    ensures idx != 0 ==> i < idx <= |fields| && fields[idx - 1] == f
    ensures forall k :: i <= k < (if idx == 0 then |fields| else idx - 1) ==> fields[k] != f
    decreases |fields| - i
  {
    if i == |fields| then 0 else if fields[i] == f then i + 1 else FindField(fields, f, i + 1)
  }

  /** The same for a field of the given name. */
  function FindName(fields: seq<Header>, name: Bytes, i: nat): (idx: nat)
    requires i <= |fields|
    ensures idx != 0 ==> i < idx <= |fields| && fields[idx - 1].name == name
    ensures forall k :: i <= k < (if idx == 0 then |fields| else idx - 1) ==> fields[k].name != name
    decreases |fields| - i
  {
    if i == |fields| then 0 else if fields[i].name == name then i + 1 else FindName(fields, name, i + 1)
  }

  method LookupStatic(fields: seq<Header>, name: Bytes, value: Bytes) returns (idx: nat)
    ensures idx == FindField(fields, Header(name, value), 0)
  {
    for i := 0 to |fields|
      invariant FindField(fields, Header(name, value), 0) == FindField(fields, Header(name, value), i)
    {
      if fields[i].name == name && fields[i].value == value {
        return i + 1;
      }
    }
    return 0;
  }

  method LookupStaticNameOnly(fields: seq<Header>, name: Bytes) returns (idx: nat)
    ensures idx == FindName(fields, name, 0)
  {
    for i := 0 to |fields|
      invariant FindName(fields, name, 0) == FindName(fields, name, i)
    {
      if fields[i].name == name {
        return i + 1;
      }
    }
    return 0;
  }

  /** Where the static table holds the field, and where the name first. */
  function StaticField(h: Header): (idx: nat)
    ensures idx <= STATIC_SIZE
  {
    StaticLength();
    FindField(STATIC, h, 0)
  }

  function StaticName(name: Bytes): (idx: nat)
    ensures idx <= STATIC_SIZE
  {
    StaticLength();
    FindName(STATIC, name, 0)
  }

  // ---- The same table by name ----

  /** Index `i` of Appendix A of RFC 7541 is this field. */
  predicate EntryAt(i: nat, name: string, value: string) {
    1 <= i <= |STATIC| && STATIC[i - 1] == Header(Ascii(name), Ascii(value))
  }

  /** Where a part of the table stands. */
  predicate PartAt(part: seq<Header>, lo: nat) {
    lo + |part| <= |STATIC| && forall k :: 0 <= k < |part| ==> STATIC[lo + k] == part[k]
  }

  lemma Parts()
    ensures |PSEUDO| == 14 && |ACCEPT| == 8 && |CONTENT| == 10
    ensures |CONDITIONS| == 11 && |LOCATION| == 10 && |SERVER| == 8
    ensures PartAt(PSEUDO, 0) && PartAt(ACCEPT, 14) && PartAt(CONTENT, 22)
    ensures PartAt(CONDITIONS, 32) && PartAt(LOCATION, 43) && PartAt(SERVER, 53)
  {
    PartSizes();
    hide PSEUDO, ACCEPT, CONTENT, CONDITIONS, LOCATION, SERVER;
  }

  lemma PartSizes()
    ensures |PSEUDO| == 14 && |ACCEPT| == 8 && |CONTENT| == 10
    ensures |CONDITIONS| == 11 && |LOCATION| == 10 && |SERVER| == 8
  {
  }

  lemma PseudoEntries()
    ensures EntryAt(1, ":authority", "") && EntryAt(2, ":method", "GET") && EntryAt(3, ":method", "POST")
    ensures EntryAt(4, ":path", "/") && EntryAt(5, ":path", "/index.html") && EntryAt(6, ":scheme", "http")
    ensures EntryAt(7, ":scheme", "https") && EntryAt(8, ":status", "200") && EntryAt(9, ":status", "204")
    ensures EntryAt(10, ":status", "206") && EntryAt(11, ":status", "304") && EntryAt(12, ":status", "400")
    ensures EntryAt(13, ":status", "404") && EntryAt(14, ":status", "500")
  {
    hide Ascii, STATIC;
    Parts();
    assert STATIC[0] == PSEUDO[0] && STATIC[1] == PSEUDO[1] && STATIC[2] == PSEUDO[2] && STATIC[3] == PSEUDO[3];
    assert STATIC[4] == PSEUDO[4] && STATIC[5] == PSEUDO[5] && STATIC[6] == PSEUDO[6] && STATIC[7] == PSEUDO[7];
    assert STATIC[8] == PSEUDO[8] && STATIC[9] == PSEUDO[9] && STATIC[10] == PSEUDO[10];
    assert STATIC[11] == PSEUDO[11] && STATIC[12] == PSEUDO[12] && STATIC[13] == PSEUDO[13];
  }

  lemma AcceptEntries()
    ensures EntryAt(15, "accept-charset", "") && EntryAt(16, "accept-encoding", "")
    ensures EntryAt(17, "accept-language", "") && EntryAt(18, "accept-ranges", "") && EntryAt(19, "accept", "")
    ensures EntryAt(20, "access-control-allow-origin", "") && EntryAt(21, "age", "") && EntryAt(22, "allow", "")
  {
    hide Ascii, STATIC;
    Parts();
    assert STATIC[14] == ACCEPT[0] && STATIC[15] == ACCEPT[1] && STATIC[16] == ACCEPT[2];
    assert STATIC[17] == ACCEPT[3] && STATIC[18] == ACCEPT[4] && STATIC[19] == ACCEPT[5];
    assert STATIC[20] == ACCEPT[6] && STATIC[21] == ACCEPT[7];
  }

  lemma ContentEntries()
    ensures EntryAt(23, "authorization", "") && EntryAt(24, "cache-control", "")
    ensures EntryAt(25, "content-disposition", "") && EntryAt(26, "content-encoding", "")
    ensures EntryAt(27, "content-language", "") && EntryAt(28, "content-length", "")
    ensures EntryAt(29, "content-location", "") && EntryAt(30, "content-range", "")
    ensures EntryAt(31, "content-type", "") && EntryAt(32, "cookie", "")
  {
    hide Ascii, STATIC;
    Parts();
    assert STATIC[22] == CONTENT[0] && STATIC[23] == CONTENT[1] && STATIC[24] == CONTENT[2];
    assert STATIC[25] == CONTENT[3] && STATIC[26] == CONTENT[4] && STATIC[27] == CONTENT[5];
    assert STATIC[28] == CONTENT[6] && STATIC[29] == CONTENT[7] && STATIC[30] == CONTENT[8];
    assert STATIC[31] == CONTENT[9];
  }

  lemma ConditionEntries()
    ensures EntryAt(33, "date", "") && EntryAt(34, "etag", "") && EntryAt(35, "expect", "")
    ensures EntryAt(36, "expires", "") && EntryAt(37, "from", "") && EntryAt(38, "host", "")
    ensures EntryAt(39, "if-match", "") && EntryAt(40, "if-modified-since", "")
    ensures EntryAt(41, "if-none-match", "") && EntryAt(42, "if-range", "")
    ensures EntryAt(43, "if-unmodified-since", "")
  {
    hide Ascii, STATIC;
    Parts();
    assert STATIC[32] == CONDITIONS[0] && STATIC[33] == CONDITIONS[1] && STATIC[34] == CONDITIONS[2];
    assert STATIC[35] == CONDITIONS[3] && STATIC[36] == CONDITIONS[4] && STATIC[37] == CONDITIONS[5];
    assert STATIC[38] == CONDITIONS[6] && STATIC[39] == CONDITIONS[7] && STATIC[40] == CONDITIONS[8];
    assert STATIC[41] == CONDITIONS[9] && STATIC[42] == CONDITIONS[10];
  }

  lemma LocationEntries()
    ensures EntryAt(44, "last-modified", "") && EntryAt(45, "link", "") && EntryAt(46, "location", "")
    ensures EntryAt(47, "max-forwards", "") && EntryAt(48, "proxy-authenticate", "")
    ensures EntryAt(49, "proxy-authorization", "") && EntryAt(50, "range", "") && EntryAt(51, "referer", "")
    ensures EntryAt(52, "refresh", "") && EntryAt(53, "retry-after", "")
  {
    hide Ascii, STATIC;
    Parts();
    assert STATIC[43] == LOCATION[0] && STATIC[44] == LOCATION[1] && STATIC[45] == LOCATION[2];
    assert STATIC[46] == LOCATION[3] && STATIC[47] == LOCATION[4] && STATIC[48] == LOCATION[5];
    assert STATIC[49] == LOCATION[6] && STATIC[50] == LOCATION[7] && STATIC[51] == LOCATION[8];
    assert STATIC[52] == LOCATION[9];
  }

  lemma ServerEntries()
    ensures EntryAt(54, "server", "") && EntryAt(55, "set-cookie", "")
    ensures EntryAt(56, "strict-transport-security", "") && EntryAt(57, "transfer-encoding", "")
    ensures EntryAt(58, "user-agent", "") && EntryAt(59, "vary", "") && EntryAt(60, "via", "")
    ensures EntryAt(61, "www-authenticate", "")
  {
    hide Ascii, STATIC;
    Parts();
    assert STATIC[53] == SERVER[0] && STATIC[54] == SERVER[1] && STATIC[55] == SERVER[2];
    assert STATIC[56] == SERVER[3] && STATIC[57] == SERVER[4] && STATIC[58] == SERVER[5];
    assert STATIC[59] == SERVER[6] && STATIC[60] == SERVER[7];
  }

  /** In the appendix accept-encoding has a value; in the server's table not. */
  lemma NoGzip()
    ensures !EntryAt(16, "accept-encoding", "gzip, deflate")
  {
    AcceptEntries();
    assert |Ascii("")| == 0 && |Ascii("gzip, deflate")| == 13;
    hide STATIC;
  }
}
