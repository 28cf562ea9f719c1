/** SETTINGS payloads (section 6.5 of RFC 7540): six bytes per parameter. */
module Settings {
  import opened Bits
  import opened Frames
  import opened Options

  datatype Settings = Settings(
    headerTableSize: Option<nat>, enablePush: Option<nat>, maxConcurrentStreams: Option<nat>,
    initialWindowSize: Option<nat>,
    maxFrameSize: Option<nat>, maxHeaderListSize: Option<nat>, enableConnectProtocol: Option<nat>)

  const NO_SETTINGS := Settings(None, None, None, None, None, None, None)

  /** One decoded parameter; unknown identifiers are ignored. */
  function Apply(s: Settings, id: nat, v: nat): Settings {
    match id
    case 1 => s.(headerTableSize := Some(v))
    case 2 => s.(enablePush := Some(v))
    case 3 => s.(maxConcurrentStreams := Some(v))
    case 4 => s.(initialWindowSize := Some(v))
    case 5 => s.(maxFrameSize := Some(v))
    case 6 => s.(maxHeaderListSize := Some(v))
    case 8 => s.(enableConnectProtocol := Some(v))
    case _ => s
  }

  function DecodeFrom(s: Settings, d: Bytes): Settings
    decreases |d|
  {
    if |d| < 6 then s else DecodeFrom(Apply(s, FromBe(d[..2]), FromBe(d[2..6])), d[6..])
  }

  method DecodeSettings(d: Bytes) returns (s: Settings)
    ensures s == DecodeFrom(NO_SETTINGS, d)
  {
    hide FromBe, Apply;
    s := NO_SETTINGS;
    var i := 0;
    assert d[0..] == d;
    while i + 6 <= |d|
      invariant i <= |d| && DecodeFrom(s, d[i..]) == DecodeFrom(NO_SETTINGS, d)
    {
      assert d[i..][..2] == d[i..i + 2] && d[i..][2..6] == d[i + 2..i + 6] && d[i..][6..] == d[i + 6..];
      s := Apply(s, FromBe(d[i..i + 2]), FromBe(d[i + 2..i + 6]));
      i := i + 6;
    }
  }

  function Parameter(id: nat, o: Option<nat>): Bytes {
    if o.None? then [] else Be(id, 2) + Be(o.value, 4)
  }

  /** The parameters that are present, in order of their identifiers. */
  function EncodeSettings(s: Settings): Bytes {
    Parameter(1, s.headerTableSize) + (Parameter(2, s.enablePush) + (Parameter(3, s.maxConcurrentStreams)
    + (Parameter(4, s.initialWindowSize) + (Parameter(5, s.maxFrameSize) + (Parameter(6, s.maxHeaderListSize)
    + (Parameter(8, s.enableConnectProtocol) + []))))))
  }

  method Emit(dst: Bytes, id: nat, o: Option<nat>) returns (dst': Bytes)
    ensures dst' == dst + Parameter(id, o)
  {
    dst' := dst;
    if o.Some? {
      dst' := dst' + Be(id, 2);
      dst' := dst' + Be(o.value, 4);
    }
  }

  /** The parameters one after the other, behind a moving end. */
  method WriteSettings(s: Settings) returns (dst: Bytes)
    ensures dst == EncodeSettings(s)
  {
    hide Parameter;
    dst := Emit([], 1, s.headerTableSize);
    dst := Emit(dst, 2, s.enablePush);
    dst := Emit(dst, 3, s.maxConcurrentStreams);
    dst := Emit(dst, 4, s.initialWindowSize);
    dst := Emit(dst, 5, s.maxFrameSize);
    dst := Emit(dst, 6, s.maxHeaderListSize);
    dst := Emit(dst, 8, s.enableConnectProtocol);
  }

  predicate Fits32(o: Option<nat>) {
    o.Some? ==> o.value < 0x1_0000_0000
  }

  predicate Encodable(s: Settings) {
    && Fits32(s.headerTableSize) && Fits32(s.enablePush) && Fits32(s.maxConcurrentStreams)
    && Fits32(s.initialWindowSize) && Fits32(s.maxFrameSize) && Fits32(s.maxHeaderListSize)
    && Fits32(s.enableConnectProtocol)
  }

  function ApplyOpt(s: Settings, id: nat, o: Option<nat>): Settings {
    if o.None? then s else Apply(s, id, o.value)
  }

  lemma ParameterRoundTrip(s: Settings, id: nat, o: Option<nat>, rest: Bytes)
    requires id < 0x1_0000 && Fits32(o)
    ensures DecodeFrom(s, Parameter(id, o) + rest) == DecodeFrom(ApplyOpt(s, id, o), rest)
  {
    hide Be, FromBe, Apply;
    if o.None? {
      assert Parameter(id, o) + rest == rest;
    } else {
      Pow256Values();
      BeRoundTrip(id, 2);
      BeRoundTrip(o.value, 4);
      var d := Parameter(id, o) + rest;
      assert d[..2] == Be(id, 2) && d[2..6] == Be(o.value, 4) && d[6..] == rest;
    }
  }

  /** Decoding inverts encoding for every pattern of present parameters. */
  lemma SettingsRoundTrip(s: Settings)
    requires Encodable(s)
    ensures DecodeFrom(NO_SETTINGS, EncodeSettings(s)) == s
  {
    LastFour(ApplyFirst(s), s);
    var rest := EncodeLast(s);
    var s1 := ApplyOpt(NO_SETTINGS, 1, s.headerTableSize);
    var s2 := ApplyOpt(s1, 2, s.enablePush);
    hide Parameter, Fits32, DecodeFrom, ApplyOpt, EncodeLast;
    ParameterRoundTrip(NO_SETTINGS, 1, s.headerTableSize,
                       Parameter(2, s.enablePush) + (Parameter(3, s.maxConcurrentStreams) + rest));
    ParameterRoundTrip(s1, 2, s.enablePush, Parameter(3, s.maxConcurrentStreams) + rest);
    ParameterRoundTrip(s2, 3, s.maxConcurrentStreams, rest);
    SplitEncoding(s);
    ApplyAll(s);
  }

  function EncodeLast(s: Settings): Bytes {
    Parameter(4, s.initialWindowSize) + (Parameter(5, s.maxFrameSize) + (Parameter(6, s.maxHeaderListSize)
    + (Parameter(8, s.enableConnectProtocol) + [])))
  }

  lemma SplitEncoding(s: Settings)
    ensures EncodeSettings(s)
         == Parameter(1, s.headerTableSize)
            + (Parameter(2, s.enablePush) + (Parameter(3, s.maxConcurrentStreams) + EncodeLast(s)))
  {
    hide Parameter;
  }

  function ApplyFirst(s: Settings): Settings {
    ApplyOpt(ApplyOpt(ApplyOpt(NO_SETTINGS, 1, s.headerTableSize), 2, s.enablePush), 3, s.maxConcurrentStreams)
  }

  function ApplyLast(t: Settings, s: Settings): Settings {
    ApplyOpt(ApplyOpt(ApplyOpt(ApplyOpt(t, 4, s.initialWindowSize), 5, s.maxFrameSize), 6, s.maxHeaderListSize),
             8, s.enableConnectProtocol)
  }

  lemma LastFour(t: Settings, s: Settings)
    requires Encodable(s)
    ensures DecodeFrom(t, EncodeLast(s)) == ApplyLast(t, s)
  {
    hide Parameter, Fits32, ApplyOpt;
    var t4 := ApplyOpt(t, 4, s.initialWindowSize);
    var t5 := ApplyOpt(t4, 5, s.maxFrameSize);
    var t6 := ApplyOpt(t5, 6, s.maxHeaderListSize);
    var e8 := Parameter(8, s.enableConnectProtocol) + [];
    var e6 := Parameter(6, s.maxHeaderListSize) + e8;
    ParameterRoundTrip(t, 4, s.initialWindowSize, Parameter(5, s.maxFrameSize) + e6);
    ParameterRoundTrip(t4, 5, s.maxFrameSize, e6);
    ParameterRoundTrip(t5, 6, s.maxHeaderListSize, e8);
    ParameterRoundTrip(t6, 8, s.enableConnectProtocol, []);
  }

  lemma ApplyAll(s: Settings)
    ensures ApplyLast(ApplyFirst(s), s) == s
  {
  }

  lemma ApplyFits(s: Settings, id: nat, v: nat)
    requires Encodable(s) && v < 0x1_0000_0000
    ensures Encodable(Apply(s, id, v))
  {
  }

  /** Decoded parameters are 32-bit values. */
  lemma {:induction false} DecodedFits(s: Settings, d: Bytes)
    requires Encodable(s)
    ensures Encodable(DecodeFrom(s, d))
    decreases |d|
  {
    if |d| >= 6 {
      FromBeRoundTrip(d[2..6]);
      Pow256Values();
      ApplyFits(s, FromBe(d[..2]), FromBe(d[2..6]));
      hide FromBe, Apply, Encodable;
      DecodedFits(Apply(s, FromBe(d[..2]), FromBe(d[2..6])), d[6..]);
    }
  }
}
