/** Header fields as byte strings, shared by both protocol versions. */
module Fields {
  import opened Bits

  datatype Header = Header(name: Bytes, value: Bytes)

  /** The bytes of an ASCII string. */
  function Ascii(s: string): (b: Bytes)
    ensures |b| == |s|
  {
    seq(|s|, i requires 0 <= i < |s| => s[i] as int % 256)
  }

  /** The leading decimal digits, in 64-bit arithmetic. */
  function Digits(acc: nat, v: Bytes): nat
    decreases |v|
  {
    if v == [] || v[0] < 0x30 || v[0] > 0x39 then acc
    else Digits((acc * 10 + (v[0] - 0x30)) % TWO64, v[1..])
  }

  /** The values of the fields called `name`, in order. */
  function Values(hs: seq<Header>, name: Bytes): seq<Bytes> {
    if hs == [] then []
    else Values(hs[..|hs| - 1], name) + (if hs[|hs| - 1].name == name then [hs[|hs| - 1].value] else [])
  }

  lemma {:induction false} ValuesJoin(a: seq<Header>, b: seq<Header>, name: Bytes)
    ensures Values(a + b, name) == Values(a, name) + Values(b, name)
    decreases |b|
  {
    if b == [] {
      assert a + b == a;
    } else {
      assert (a + b)[..|a + b| - 1] == a + b[..|b| - 1];
      ValuesJoin(a, b[..|b| - 1], name);
    }
  }

  lemma NoValues(name: Bytes)
    ensures Values([], name) == []
  {
  }

  lemma ValuesOne(h: Header, name: Bytes)
    ensures Values([h], name) == if h.name == name then [h.value] else []
  {
    assert Values([h][..0], name) == [];
  }

  /** The value of the last field called `name`, empty if there is none. */
  function LastValue(hs: seq<Header>, name: Bytes): Bytes {
    var vs := Values(hs, name);
    if vs == [] then [] else vs[|vs| - 1]
  }

  lemma LastValueOne(hs: seq<Header>, h: Header, name: Bytes)
    ensures LastValue(hs + [h], name) == if h.name == name then h.value else LastValue(hs, name)
  {
    assert (hs + [h])[..|hs|] == hs;
  }
}
