/** The vmess payload decoder and its bounded repair: pkg/parser/vmess.go. JSON decoding is a
    parameter: a deterministic function from bytes to the fields of the object, if any. */
module VMess {
  import opened Bytes
  import opened Options
  import opened Base64
  import opened Detector

  /** The fields the decoder looks at, and the rest of the object. */
  datatype Payload = Payload(add: bytes, id: bytes, port: bytes, rest: seq<bytes>)

  datatype Decoded = BadEncoding | BadJson | Object(payload: Payload)

  const MAX_REPAIR: nat := 16

  type JsonDecoder = bytes -> Option<Payload>

  /** A whole-payload decoder; the repair works the same around any of them. */
  type Unmarshaler = bytes -> Decoded

  function UnmarshalerFor(json: JsonDecoder): Unmarshaler { payload => Unmarshal(json, payload) }

  function Unmarshal(json: JsonDecoder, payload: bytes): Decoded {
    match DecodeAny(payload)
    case None => BadEncoding
    case Some(b) => match json(b)
      case None => BadJson
      case Some(j) => Object(j)
  }

  /** The strict decode is taken as it is when any of the three fields is there. */
  predicate Acceptable(d: Decoded) {
    d.Object? && (d.payload.add != [] || d.payload.id != [] || d.payload.port != [])
  }

  /** A repair must bring both server and id. */
  predicate Repairs(d: Decoded) { d.Object? && d.payload.add != [] && d.payload.id != [] }

  function Limit(n: nat): int { if n <= MAX_REPAIR then n - 1 else MAX_REPAIR }

  function Cut(payload: bytes, trim: nat): bytes
    requires trim <= |payload|
  {
    payload[..|payload| - trim]
  }

  /** The first repair found trying trim, trim + 1, ... up to the limit. */
  function FirstRepair(unmarshal: Unmarshaler, payload: bytes, trim: nat): Option<Decoded>
    decreases Limit(|payload|) + 1 - trim
  {
    if trim > Limit(|payload|) then None
    else if Repairs(unmarshal(Cut(payload, trim))) then Some(unmarshal(Cut(payload, trim)))
    else FirstRepair(unmarshal, payload, trim + 1)
  }

  function DecodePayload(unmarshal: Unmarshaler, payload: bytes): Decoded {
    var strict := unmarshal(payload);
    if Acceptable(strict) then strict
    else match FirstRepair(unmarshal, payload, 1)
      case Some(r) => r
      case None => strict
  }

  method DecodeVMessPayload(unmarshal: Unmarshaler, payload: bytes) returns (r: Decoded)
    ensures r == DecodePayload(unmarshal, payload)
  {
    var strict := unmarshal(payload);
    if Acceptable(strict) {
      return strict;
    }
    var limit := MAX_REPAIR as int;
    if |payload| <= limit {
      limit := |payload| - 1;
    }
    var trim := 1;
    while trim <= limit
      invariant 1 <= trim
      invariant FirstRepair(unmarshal, payload, 1) == FirstRepair(unmarshal, payload, trim)
    {
      var candidate := unmarshal(Cut(payload, trim));
      if Repairs(candidate) {
        return candidate;
      }
      trim := trim + 1;
    }
    return strict;
  }

  /** trim is a repair the decoder may use. */
  ghost predicate CanTrim(unmarshal: Unmarshaler, payload: bytes, trim: nat) {
    1 <= trim <= MAX_REPAIR && trim < |payload| && Repairs(unmarshal(Cut(payload, trim)))
  }

  lemma {:induction false} FirstRepairIsLeast(unmarshal: Unmarshaler, payload: bytes, from: nat, trim: nat)
    requires 1 <= from <= trim && CanTrim(unmarshal, payload, trim)
    requires forall t | from <= t < trim :: !CanTrim(unmarshal, payload, t)
    ensures FirstRepair(unmarshal, payload, from) == Some(unmarshal(Cut(payload, trim)))
    decreases trim - from
  {
    if from < trim {
      assert !CanTrim(unmarshal, payload, from);
      FirstRepairIsLeast(unmarshal, payload, from + 1, trim);
    }
  }

  lemma {:induction false} NoRepair(unmarshal: Unmarshaler, payload: bytes, from: nat)
    requires 1 <= from && forall t: nat | from <= t :: !CanTrim(unmarshal, payload, t)
    ensures FirstRepair(unmarshal, payload, from) == None
    decreases Limit(|payload|) + 1 - from
  {
    if from <= Limit(|payload|) {
      assert !CanTrim(unmarshal, payload, from);
      NoRepair(unmarshal, payload, from + 1);
    }
  }

  /** trim is the shortest cut that repairs. */
  ghost predicate LeastTrim(unmarshal: Unmarshaler, payload: bytes, trim: nat) {
    CanTrim(unmarshal, payload, trim) && forall t: nat | t < trim :: !CanTrim(unmarshal, payload, t)
  }

  /** When the strict decode is not acceptable, the answer is the longest proper, non-empty
      prefix, at most 16 bytes shorter, that decodes with server and id; without one, the
      strict outcome stands. */
  lemma LongestRepair(unmarshal: Unmarshaler, payload: bytes)
    requires !Acceptable(unmarshal(payload))
    ensures forall trim: nat | LeastTrim(unmarshal, payload, trim) ::
      DecodePayload(unmarshal, payload) == unmarshal(Cut(payload, trim))
    ensures (forall t: nat :: !CanTrim(unmarshal, payload, t)) ==>
      DecodePayload(unmarshal, payload) == unmarshal(payload)
  {
    forall trim: nat | LeastTrim(unmarshal, payload, trim)
      ensures DecodePayload(unmarshal, payload) == unmarshal(Cut(payload, trim))
    {
      FirstRepairIsLeast(unmarshal, payload, 1, trim);
    }
    if forall t: nat :: !CanTrim(unmarshal, payload, t) {
      NoRepair(unmarshal, payload, 1);
    }
  }

  /** An object with a server, an id or a port is taken as it is. Otherwise a cut by t bytes, the least
      of 1 to 16 that leaves something and in it an object with server and id, decides. */
  lemma FirstGoodCut(unmarshal: Unmarshaler, payload: bytes, t: nat)
    ensures var d := unmarshal(payload);
      d.Object? && (d.payload.add != [] || d.payload.id != [] || d.payload.port != []) ==>
        DecodePayload(unmarshal, payload) == d
    ensures var d := unmarshal(payload);
      !(d.Object? && (d.payload.add != [] || d.payload.id != [] || d.payload.port != []))
      && GoodCut(unmarshal, payload, t) && (forall u: nat | u < t :: !GoodCut(unmarshal, payload, u)) ==>
        DecodePayload(unmarshal, payload) == unmarshal(payload[..|payload| - t])
    ensures (forall u: nat :: !GoodCut(unmarshal, payload, u)) ==>
      DecodePayload(unmarshal, payload) == unmarshal(payload)
  {
    forall u: nat ensures GoodCut(unmarshal, payload, u) <==> CanTrim(unmarshal, payload, u) {
    }
    if !Acceptable(unmarshal(payload)) {
      LongestRepair(unmarshal, payload);
      assert GoodCut(unmarshal, payload, t) && (forall u: nat | u < t :: !GoodCut(unmarshal, payload, u)) ==>
        LeastTrim(unmarshal, payload, t);
    }
  }

  ghost predicate GoodCut(unmarshal: Unmarshaler, payload: bytes, t: nat) {
    && 1 <= t <= 16 && t < |payload|
    && var d := unmarshal(payload[..|payload| - t]); d.Object? && d.payload.add != [] && d.payload.id != []
  }

  lemma {:induction false} StripKeepsPadding(s: bytes)
    requires EQUALS in s
    ensures EQUALS in StripBreaks(s)
  {
    if s[0] != EQUALS {
      assert s == [s[0]] + s[1..];
      StripKeepsPadding(s[1..]);
    }
  }

  /** A decodable, padded payload followed by anything (but a line break) no longer decodes. */
  lemma GluedFails(p: bytes, w: bytes)
    requires DecodeAny(p).Some? && EQUALS in p && w != [] && !IsLineBreak(w[0])
    ensures DecodeAny(p + w).None?
  {
    var e :| e in TRIAL_ORDER && Decode(e, p) == DecodeAny(p);
    StripAppend(p, w);
    StripKeepsPadding(p);
    forall f | f in TRIAL_ORDER ensures Decode(f, p + w).None? {
      NothingAfterPadding(e, f, StripBreaks(p), StripBreaks(w));
    }
  }

  lemma GluedCannotTrim(json: JsonDecoder, p: bytes, w: bytes, t: nat)
    requires DecodeAny(p).Some? && EQUALS in p && t < |w| && !IsLineBreak(w[0])
    ensures !CanTrim(UnmarshalerFor(json), p + w, t)
  {
    var rest := w[..|w| - t];
    assert Cut(p + w, t) == p + rest;
    GluedFails(p, rest);
  }

  lemma WholeCanTrim(json: JsonDecoder, p: bytes, w: bytes)
    requires Repairs(Unmarshal(json, p)) && p != [] && 1 <= |w| <= MAX_REPAIR
    ensures CanTrim(UnmarshalerFor(json), p + w, |w|) && Cut(p + w, |w|) == p
  {
    assert Cut(p + w, |w|) == p;
  }

  /** The defect the repair exists for: a good padded payload p glued to the next scheme word w
      decodes to exactly what p decodes to. */
  lemma GluedRepaired(json: JsonDecoder, p: bytes, w: bytes)
    requires Repairs(Unmarshal(json, p)) && EQUALS in p
    requires 1 <= |w| <= MAX_REPAIR && !IsLineBreak(w[0])
    ensures DecodePayload(UnmarshalerFor(json), p + w) == Unmarshal(json, p)
  {
    var u := UnmarshalerFor(json);
    GluedFails(p, w);
    forall t | 0 < t < |w| ensures !CanTrim(u, p + w, t) {
      GluedCannotTrim(json, p, w, t);
    }
    WholeCanTrim(json, p, w);
    FirstRepairIsLeast(u, p + w, 1, |w|);
  }
}
