/** The NMEA 0183 sentence decoder: framing and checksum validation, and
    the in-place splitting of a sentence into its fields with strsep. */
module Nmea {
  import opened Common

  const NUL: char := '\0'

  /** Index of the first character after "$GPxxx," in the source buffer. */
  const FIELDS_START: nat := 7

  /** Number of entries of the GSA `prns` array and of the GSV `satellites`
      array (the nmea header is not part of this model). */
  const PRN_COUNT: nat := 12
  const SATELLITE_COUNT: nat := 4

  // ---------------------------------------------------------------------
  // Checksum

  /** The NMEA checksum of a run of characters: the XOR of their bytes. */
  function Crc(s: seq<char>): bv8
  {
    if s == [] then 0 else Crc(s[..|s| - 1]) ^ Low8(s[|s| - 1])
  }

  /** The checksum of a concatenation combines the two checksums. */
  lemma {:induction false} CrcConcat(a: seq<char>, b: seq<char>)
    ensures Crc(a + b) == Crc(a) ^ Crc(b)
  {
    if b != [] {
      var b' := b[..|b| - 1];
      assert (a + b)[..|a + b| - 1] == a + b';
      assert (a + b)[|a + b| - 1] == b[|b| - 1];
      CrcConcat(a, b');
    } else {
      assert a + b == a;
    }
  }

  /** Appending a character XORs its byte into the checksum. */
  lemma CrcAppend(s: seq<char>, c: char)
    ensures Crc(s + [c]) == Crc(s) ^ Low8(c)
  {
    assert (s + [c])[..|s|] == s;
  }

  /** Every character occurring twice cancels out: a doubled text has checksum 0. */
  lemma CrcOfDoubled(s: seq<char>)
    ensures Crc(s + s) == 0
  {
    CrcConcat(s, s);
  }

  /** calculate_crc: XOR of the `size` characters from `buf[start]` on. */
  method CalculateCrc(buf: array<char>, start: nat, size: nat) returns (crc: bv8)
    requires start + size <= buf.Length
    ensures crc == Crc(buf[start..start + size])
  {
    crc := 0;
    var i := 0;
    while i < size
      invariant i <= size
      invariant crc == Crc(buf[start..start + i])
    {
      assert buf[start..start + i + 1][..i] == buf[start..start + i];
      crc := crc ^ Low8(buf[start + i]);
      i := i + 1;
    }
  }

  // ---------------------------------------------------------------------
  // Transmitted checksum: std_strtol over "0x" followed by the two characters

  predicate IsHexDigit(c: char)
  {
    '0' <= c <= '9' || 'a' <= c <= 'f' || 'A' <= c <= 'F'
  }

  function HexDigitValue(c: char): (v: nat)
    requires IsHexDigit(c)
    ensures v < 16
  {
    if '0' <= c <= '9' then c as int - '0' as int
    else if 'a' <= c <= 'f' then c as int - 'a' as int + 10
    else c as int - 'A' as int + 10
  }

  /** The value of the hexadecimal number "0x" + hi + lo, or None when the
      parse does not end exactly after `lo` (some character is no hex digit). */
  function HexByte(hi: char, lo: char): (r: Option<nat>)
    ensures r.Some? <==> IsHexDigit(hi) && IsHexDigit(lo)
    ensures r.Some? ==> r.value < 256
  {
    if IsHexDigit(hi) && IsHexDigit(lo) then Some(16 * HexDigitValue(hi) + HexDigitValue(lo)) else None
  }

  /** The upper-case hexadecimal digit of `v`. */
  function HexChar(v: nat): (c: char)
    requires v < 16
    ensures IsHexDigit(c) && HexDigitValue(c) == v
  {
    if v < 10 then ('0' as int + v) as char else ('A' as int + v - 10) as char
  }

  /** Parsing the two hexadecimal digits of any byte gives back the byte. */
  lemma HexRoundTrip(b: nat)
    requires b < 256
    ensures HexByte(HexChar(b / 16), HexChar(b % 16)) == Some(b)
  {
  }

  // ---------------------------------------------------------------------
  // strsep over a NUL-terminated buffer

  /** A `char *` into the source buffer: an index, or NULL. */
  type Token = Option<nat>

  /** The cursor is NULL or points at or before a NUL at index `end`. */
  ghost predicate CursorOk(s: seq<char>, cursor: Token, end: nat)
  {
    end < |s| && s[end] == NUL && (cursor.Some? ==> cursor.value <= end)
  }

  /** Index of the first `d` or NUL at or after `i`; `|s|` when there is none. */
  function NextStop(s: seq<char>, i: nat, d: char): nat
    decreases |s| - i
  {
    if i >= |s| || s[i] == d || s[i] == NUL then i else NextStop(s, i + 1, d)
  }

  lemma {:induction false} NextStopIsFirst(s: seq<char>, i: nat, d: char, j: nat)
    requires i <= j < |s| && (s[j] == d || s[j] == NUL)
    requires forall k :: i <= k < j ==> s[k] != d && s[k] != NUL
    ensures NextStop(s, i, d) == j
    decreases j - i
  {
    if i < j {
      NextStopIsFirst(s, i + 1, d, j);
    }
  }

  datatype SepResult = SepResult(token: Token, buf: seq<char>, next: Token)

  /** strsep(&cursor, d): returns the cursor; if a `d` comes before the
      terminating NUL it is overwritten with NUL and the cursor moves past
      it, otherwise the cursor becomes NULL. */
  function StrSepSpec(s: seq<char>, cursor: Token, d: char): SepResult
  {
    match cursor
    case None => SepResult(None, s, None)
    case Some(i) =>
      var j := NextStop(s, i, d);
      if j < |s| && s[j] == d then SepResult(Some(i), s[j := NUL], Some(j + 1)) else SepResult(Some(i), s, None)
  }

  /** The separators the sub-decoders split at. */
  datatype Delim = Comma | Star

  function DelimChar(d: Delim): (c: char)
    ensures c != NUL
  {
    match d
    case Comma => ','
    case Star => '*'
  }

  /** One strsep call of a sub-decoder: its separator, and whether the
      returned token is stored in the sentence or discarded with `(void)`. */
  datatype Step = Step(delim: Delim, stored: bool)

  datatype SplitResult = SplitResult(tokens: seq<Token>, buf: seq<char>, next: Token)

  /** Successive strsep calls, one per step of `plan`; `tokens` are the
      tokens of the steps that store theirs. */
  function SplitSpec(s: seq<char>, cursor: Token, plan: seq<Step>): SplitResult
    decreases |plan|, 1
  {
    if plan == [] then SplitResult([], s, cursor) else SplitLast(s, cursor, plan)
  }

  /** The split by a non-empty plan: its last strsep call, made after the
      calls of the other steps. */
  function SplitLast(s: seq<char>, cursor: Token, plan: seq<Step>): SplitResult
    requires plan != []
    decreases |plan|, 0
  {
    var p := SplitSpec(s, cursor, plan[..|plan| - 1]);
    var step := plan[|plan| - 1];
    var q := StrSepSpec(p.buf, p.next, DelimChar(step.delim));
    SplitResult(if step.stored then p.tokens + [q.token] else p.tokens, q.buf, q.next)
  }

  lemma {:induction false} NextStopBefore(s: seq<char>, i: nat, d: char, end: nat)
    requires i <= end < |s| && s[end] == NUL
    ensures NextStop(s, i, d) <= end
    decreases end - i
  {
    if i < end && s[i] != d && s[i] != NUL {
      NextStopBefore(s, i + 1, d, end);
    }
  }

  /** strsep calls keep the buffer NUL-terminated at `end` and the cursor
      at or before it. */
  lemma {:induction false} SplitKeepsCursor(s: seq<char>, cursor: Token, end: nat, plan: seq<Step>)
    requires CursorOk(s, cursor, end)
    ensures var r := SplitSpec(s, cursor, plan); CursorOk(r.buf, r.next, end)
    decreases |plan|
  {
    if plan != [] {
      var n := |plan| - 1;
      SplitKeepsCursor(s, cursor, end, plan[..n]);
      var p := SplitSpec(s, cursor, plan[..n]);
      assert SplitSpec(s, cursor, plan) == SplitLast(s, cursor, plan);
      if p.next.Some? {
        NextStopBefore(p.buf, p.next.value, DelimChar(plan[n].delim), end);
      }
    }
  }

  /** strsep, in place on the buffer. */
  method StrSep(a: array<char>, cursor: Token, ghost end: nat, delim: char) returns (token: Token, next: Token)
    requires delim != NUL && CursorOk(a[..], cursor, end)
    modifies a
    ensures var r := StrSepSpec(old(a[..]), cursor, delim);
      token == r.token && next == r.next && a[..] == r.buf
    ensures CursorOk(a[..], next, end)
  {
    token, next := cursor, None;
    if cursor.None? {
      return;
    }
    var j := cursor.value;
    while a[j] != delim && a[j] != NUL
      invariant cursor.value <= j <= end
      invariant forall k :: cursor.value <= k < j ==> a[k] != delim && a[k] != NUL
      decreases end - j
    {
      j := j + 1;
    }
    NextStopIsFirst(a[..], cursor.value, delim, j);
    if a[j] == delim {
      a[j] := NUL;
      next := Some(j + 1);
    }
  }

  // ---------------------------------------------------------------------
  // Sentence types and their field layouts

  datatype SentenceType = Gga | Gll | Gsa | Gsv | Rmc | Vtg

  /** The decoded sentence (`struct nmea_sentence_t`): its type and the
      field pointers of that type's record, in declaration order. */
  class Sentence {
    var kind: SentenceType
    var fields: seq<Token>
  }

  /** `n` splits at ',' whose tokens are stored. */
  function Stored(n: nat): (r: seq<Step>)
    ensures |r| == n
  {
    if n == 0 then [] else Stored(n - 1) + [Step(Comma, true)]
  }

  /** The ',' splits of a sub-decoder, before its final '*' split. */
  function CommaSteps(kind: SentenceType): (r: seq<Step>)
  {
    match kind
    case Gga => Stored(12) + [Step(Comma, false)]
    case Gll => Stored(6)
    case Gsa => Stored(2 + PRN_COUNT + 2)
    case Gsv => Stored(3 + 4 * SATELLITE_COUNT - 1)
    case Rmc => Stored(10)
    case Vtg => Stored(7)
  }

  /** Every strsep call of a sub-decoder, in order. */
  function Plan(kind: SentenceType): seq<Step>
  {
    CommaSteps(kind) + [Step(Star, !(kind == Gga || kind == Gll))]
  }

  /** The split a sub-decoder makes of the fields after the header. */
  function FieldSplit(s: seq<char>, kind: SentenceType): SplitResult
  {
    SplitSpec(s, Some(FIELDS_START), Plan(kind))
  }

  /** The state of a sub-decoder after the strsep calls of `plan`. */
  ghost predicate Splitting(fields: seq<Token>, buf: seq<char>, src: Token, s0: seq<char>, plan: seq<Step>)
  {
    SplitResult(fields, buf, src) == SplitSpec(s0, Some(FIELDS_START), plan)
  }

  /** What a sub-decoder leaves behind: the sentence's type and fields and
      the buffer with the separators it consumed overwritten by NUL. */
  ghost predicate Decoded(sentence: SentenceType, fields: seq<Token>, buf: seq<char>, s0: seq<char>, kind: SentenceType)
  {
    var r := FieldSplit(s0, kind);
    sentence == kind && fields == r.tokens && buf == r.buf
  }

  /** `dst_p-><next field> = strsep(&src_p, ",")` after `k` such calls. */
  method Field(dst: Sentence, a: array<char>, src: Token, ghost s0: seq<char>, ghost end: nat, ghost k: nat)
    returns (next: Token)
    requires CursorOk(s0, Some(FIELDS_START), end)
    requires Splitting(dst.fields, a[..], src, s0, Stored(k))
    modifies dst, a
    ensures Splitting(dst.fields, a[..], next, s0, Stored(k + 1))
    ensures dst.kind == old(dst.kind)
  {
    assert Stored(k + 1)[..k] == Stored(k);
    SplitKeepsCursor(s0, Some(FIELDS_START), end, Stored(k));
    var token;
    token, next := StrSep(a, src, end, ',');
    dst.fields := dst.fields + [token];
  }

  /** `(void)strsep(&src_p, ",")`. */
  method SkipComma(dst: Sentence, a: array<char>, src: Token, ghost s0: seq<char>, ghost end: nat, ghost plan: seq<Step>)
    returns (next: Token)
    requires CursorOk(s0, Some(FIELDS_START), end)
    requires Splitting(dst.fields, a[..], src, s0, plan)
    modifies a
    ensures Splitting(dst.fields, a[..], next, s0, plan + [Step(Comma, false)])
  {
    assert (plan + [Step(Comma, false)])[..|plan|] == plan;
    SplitKeepsCursor(s0, Some(FIELDS_START), end, plan);
    var token;
    token, next := StrSep(a, src, end, ',');
  }

  /** The closing `strsep(&src_p, "*")` of a sub-decoder that stores its
      last field. */
  method StarField(dst: Sentence, a: array<char>, src: Token, ghost s0: seq<char>, ghost end: nat,
                   ghost kind: SentenceType)
    returns (next: Token)
    requires kind != Gga && kind != Gll
    requires CursorOk(s0, Some(FIELDS_START), end)
    requires Splitting(dst.fields, a[..], src, s0, CommaSteps(kind))
    modifies dst, a
    ensures dst.kind == old(dst.kind)
    ensures Splitting(dst.fields, a[..], next, s0, Plan(kind))
  {
    assert Plan(kind)[..|CommaSteps(kind)|] == CommaSteps(kind);
    SplitKeepsCursor(s0, Some(FIELDS_START), end, CommaSteps(kind));
    var token;
    token, next := StrSep(a, src, end, '*');
    dst.fields := dst.fields + [token];
  }

  /** The closing `(void)strsep(&src_p, "*")` of GGA and GLL. */
  method StarSkip(dst: Sentence, a: array<char>, src: Token, ghost s0: seq<char>, ghost end: nat,
                  ghost kind: SentenceType)
    returns (next: Token)
    requires kind == Gga || kind == Gll
    requires CursorOk(s0, Some(FIELDS_START), end)
    requires Splitting(dst.fields, a[..], src, s0, CommaSteps(kind))
    modifies a
    ensures Splitting(dst.fields, a[..], next, s0, Plan(kind))
  {
    assert Plan(kind)[..|CommaSteps(kind)|] == CommaSteps(kind);
    SplitKeepsCursor(s0, Some(FIELDS_START), end, CommaSteps(kind));
    var token;
    token, next := StrSep(a, src, end, '*');
  }

  // ---------------------------------------------------------------------
  // Sub-decoders: the fields start after the 6-character header, and
  // `size` is returned unchanged unless the fields ran out

  /** decode_gga */
  method DecodeGga(dst: Sentence, a: array<char>, size: nat, ghost end: nat) returns (res: int)
    requires CursorOk(a[..], Some(FIELDS_START), end)
    modifies dst, a
    ensures Decoded(dst.kind, dst.fields, a[..], old(a[..]), Gga)
    ensures res == if FieldSplit(old(a[..]), Gga).next.None? then -EPROTO else size
  {
    ghost var s0 := a[..];
    var src: Token := Some(FIELDS_START);
    dst.kind := Gga;
    dst.fields := [];
    src := Field(dst, a, src, s0, end, 0);  // time of fix
    src := Field(dst, a, src, s0, end, 1);  // latitude angle
    src := Field(dst, a, src, s0, end, 2);  // latitude direction
    src := Field(dst, a, src, s0, end, 3);  // longitude angle
    src := Field(dst, a, src, s0, end, 4);  // longitude direction
    src := Field(dst, a, src, s0, end, 5);  // fix quality
    src := Field(dst, a, src, s0, end, 6);  // tracked satellites
    src := Field(dst, a, src, s0, end, 7);  // horizontal dilution of position
    src := Field(dst, a, src, s0, end, 8);  // altitude value
    src := Field(dst, a, src, s0, end, 9);  // altitude unit
    src := Field(dst, a, src, s0, end, 10);  // height of geoid value
    src := Field(dst, a, src, s0, end, 11);  // height of geoid unit
    src := SkipComma(dst, a, src, s0, end, Stored(12));
    src := StarSkip(dst, a, src, s0, end, Gga);
    if src == None {
      return -EPROTO;
    }
    return size;
  }

  /** decode_gll */
  method DecodeGll(dst: Sentence, a: array<char>, size: nat, ghost end: nat) returns (res: int)
    requires CursorOk(a[..], Some(FIELDS_START), end)
    modifies dst, a
    ensures Decoded(dst.kind, dst.fields, a[..], old(a[..]), Gll)
    ensures res == if FieldSplit(old(a[..]), Gll).next.None? then -EPROTO else size
  {
    ghost var s0 := a[..];
    var src: Token := Some(FIELDS_START);
    dst.kind := Gll;
    dst.fields := [];
    src := Field(dst, a, src, s0, end, 0);  // latitude angle
    src := Field(dst, a, src, s0, end, 1);  // latitude direction
    src := Field(dst, a, src, s0, end, 2);  // longitude angle
    src := Field(dst, a, src, s0, end, 3);  // longitude direction
    src := Field(dst, a, src, s0, end, 4);  // time of fix
    src := Field(dst, a, src, s0, end, 5);  // data active
    src := StarSkip(dst, a, src, s0, end, Gll);
    if src == None {
      return -EPROTO;
    }
    return size;
  }

  /** decode_gsa */
  method DecodeGsa(dst: Sentence, a: array<char>, size: nat, ghost end: nat) returns (res: int)
    requires CursorOk(a[..], Some(FIELDS_START), end)
    modifies dst, a
    ensures Decoded(dst.kind, dst.fields, a[..], old(a[..]), Gsa)
    ensures res == if FieldSplit(old(a[..]), Gsa).next.None? then -EPROTO else size
  {
    ghost var s0 := a[..];
    var src: Token := Some(FIELDS_START);
    dst.kind := Gsa;
    dst.fields := [];
    src := Field(dst, a, src, s0, end, 0);  // selection
    src := Field(dst, a, src, s0, end, 1);  // fix
    var i := 0;
    while i < PRN_COUNT
      invariant 0 <= i <= PRN_COUNT
      invariant dst.kind == Gsa
      invariant Splitting(dst.fields, a[..], src, s0, Stored(2 + i))
    {
      src := Field(dst, a, src, s0, end, 2 + i);  // prns[i]
      i := i + 1;
    }
    src := Field(dst, a, src, s0, end, 14);  // pdop
    src := Field(dst, a, src, s0, end, 15);  // hdop
    src := StarField(dst, a, src, s0, end, Gsa);  // vdop
    if src == None {
      return -EPROTO;
    }
    return size;
  }

  /** One satellite of decode_gsv: prn, elevation and azimuth end at a ',';
      the snr ends at a ',' except in the last satellite, where it ends at
      the '*'. */
  method DecodeSatellite(dst: Sentence, a: array<char>, src: Token, ghost s0: seq<char>, ghost end: nat,
                         ghost n: nat, last: bool)
    returns (next: Token)
    requires CursorOk(s0, Some(FIELDS_START), end)
    requires Splitting(dst.fields, a[..], src, s0, Stored(n))
    requires last ==> n == 4 * SATELLITE_COUNT - 4 + 3
    modifies dst, a
    ensures dst.kind == old(dst.kind)
    ensures !last ==> Splitting(dst.fields, a[..], next, s0, Stored(n + 4))
    ensures last ==> Splitting(dst.fields, a[..], next, s0, Plan(Gsv))
  {
    next := Field(dst, a, src, s0, end, n);  // prn
    next := Field(dst, a, next, s0, end, n + 1);  // elevation
    next := Field(dst, a, next, s0, end, n + 2);  // azimuth
    if !last {
      next := Field(dst, a, next, s0, end, n + 3);  // snr
    } else {
      next := StarField(dst, a, next, s0, end, Gsv);  // snr
    }
  }

  /** decode_gsv */
  method DecodeGsv(dst: Sentence, a: array<char>, size: nat, ghost end: nat) returns (res: int)
    requires CursorOk(a[..], Some(FIELDS_START), end)
    modifies dst, a
    ensures Decoded(dst.kind, dst.fields, a[..], old(a[..]), Gsv)
    ensures res == if FieldSplit(old(a[..]), Gsv).next.None? then -EPROTO else size
  {
    ghost var s0 := a[..];
    var src: Token := Some(FIELDS_START);
    dst.kind := Gsv;
    dst.fields := [];
    src := Field(dst, a, src, s0, end, 0);  // number of sentences
    src := Field(dst, a, src, s0, end, 1);  // sentence
    src := Field(dst, a, src, s0, end, 2);  // number of satellites
    var i := 0;
    ghost var n := 3;
    while i < SATELLITE_COUNT
      invariant 0 <= i <= SATELLITE_COUNT && n == 3 + 4 * i
      invariant dst.kind == Gsv
      invariant i < SATELLITE_COUNT ==> Splitting(dst.fields, a[..], src, s0, Stored(n))
      invariant i == SATELLITE_COUNT ==> Splitting(dst.fields, a[..], src, s0, Plan(Gsv))
    {
      src := DecodeSatellite(dst, a, src, s0, end, n, i == SATELLITE_COUNT - 1);
      i := i + 1;
      n := n + 4;
    }
    if src == None {
      return -EPROTO;
    }
    return size;
  }

  /** decode_vtg */
  method DecodeVtg(dst: Sentence, a: array<char>, size: nat, ghost end: nat) returns (res: int)
    requires CursorOk(a[..], Some(FIELDS_START), end)
    modifies dst, a
    ensures Decoded(dst.kind, dst.fields, a[..], old(a[..]), Vtg)
    ensures res == if FieldSplit(old(a[..]), Vtg).next.None? then -EPROTO else size
  {
    ghost var s0 := a[..];
    var src: Token := Some(FIELDS_START);
    dst.kind := Vtg;
    dst.fields := [];
    src := Field(dst, a, src, s0, end, 0);  // track made good (true) value
    src := Field(dst, a, src, s0, end, 1);  // track made good (true) reference
    src := Field(dst, a, src, s0, end, 2);  // track made good (magnetic) value
    src := Field(dst, a, src, s0, end, 3);  // track made good (magnetic) reference
    src := Field(dst, a, src, s0, end, 4);  // ground speed (knots) value
    src := Field(dst, a, src, s0, end, 5);  // ground speed (knots) unit
    src := Field(dst, a, src, s0, end, 6);  // ground speed (km/h) value
    src := StarField(dst, a, src, s0, end, Vtg);  // ground speed (km/h) unit
    if src == None {
      return -EPROTO;
    }
    return size;
  }

  /** decode_rmc */
  method DecodeRmc(dst: Sentence, a: array<char>, size: nat, ghost end: nat) returns (res: int)
    requires CursorOk(a[..], Some(FIELDS_START), end)
    modifies dst, a
    ensures Decoded(dst.kind, dst.fields, a[..], old(a[..]), Rmc)
    ensures res == if FieldSplit(old(a[..]), Rmc).next.None? then -EPROTO else size
  {
    ghost var s0 := a[..];
    var src: Token := Some(FIELDS_START);
    dst.kind := Rmc;
    dst.fields := [];
    src := Field(dst, a, src, s0, end, 0);  // time of fix
    src := Field(dst, a, src, s0, end, 1);  // status
    src := Field(dst, a, src, s0, end, 2);  // latitude angle
    src := Field(dst, a, src, s0, end, 3);  // latitude direction
    src := Field(dst, a, src, s0, end, 4);  // longitude angle
    src := Field(dst, a, src, s0, end, 5);  // longitude direction
    src := Field(dst, a, src, s0, end, 6);  // speed
    src := Field(dst, a, src, s0, end, 7);  // track angle
    src := Field(dst, a, src, s0, end, 8);  // date
    src := Field(dst, a, src, s0, end, 9);  // magnetic variation angle
    src := StarField(dst, a, src, s0, end, Rmc);  // magnetic variation direction
    if src == None {
      return -EPROTO;
    }
    return size;
  }

  // ---------------------------------------------------------------------
  // nmea_decode

  /** The sentence type named by the header "$GPxxx,", if it is one of the
      six the decoder knows. */
  function HeaderType(s: seq<char>): Option<SentenceType>
    requires |s| >= FIELDS_START
  {
    var header := s[1..FIELDS_START];
    if header == "GPGGA," then Some(Gga)
    else if header == "GPGLL," then Some(Gll)
    else if header == "GPGSA," then Some(Gsa)
    else if header == "GPGSV," then Some(Gsv)
    else if header == "GPRMC," then Some(Rmc)
    else if header == "GPVTG," then Some(Vtg)
    else None
  }

  /** The framing of a sentence of `size` characters: "$...*hh\r\n" and a
      terminating NUL at index `size`. */
  predicate Framed(s: seq<char>, size: nat)
    requires 5 <= size < |s|
  {
    s[0] == '$' && s[size - 5] == '*' && s[size - 2] == '\r' && s[size - 1] == '\n' && s[size] == NUL
  }

  /** The checksum the sentence carries: the two characters after '*'. */
  function TransmittedCrc(s: seq<char>, size: nat): Option<nat>
    requires 5 <= size < |s|
  {
    HexByte(s[size - 4], s[size - 3])
  }

  /** A framed sentence whose carried checksum is the XOR of the characters
      between '$' and '*'. */
  predicate Validated(s: seq<char>, size: nat)
    requires 5 <= size < |s|
  {
    Framed(s, size) && TransmittedCrc(s, size) == Some(Crc(s[1..size - 5]) as int)
  }

  /** A known header ends before the '*' of a framed sentence, so the
      fields start inside the NUL-terminated sentence. */
  lemma HeaderLeavesRoom(s: seq<char>, size: nat)
    requires 5 <= size < |s| && Framed(s, size) && HeaderType(s).Some?
    ensures CursorOk(s, Some(FIELDS_START), size)
  {
    if size - 5 < FIELDS_START {
      assert s[1..FIELDS_START][size - 6] == s[size - 5] == '*';
    }
  }

  /** The value nmea_decode returns for the buffer `s` holding a sentence
      of `size` characters. */
  function DecodeResult(s: seq<char>, size: nat): int
    requires 5 <= size < |s|
  {
    if !Framed(s, size) then -EPROTO
    else if TransmittedCrc(s, size).None? then -EPROTO
    else if TransmittedCrc(s, size).value != Crc(s[1..size - 5]) as int then -EPROTO
    else match HeaderType(s)
      case None => -ENOSYS
      case Some(kind) => if FieldSplit(s, kind).next.None? then -EPROTO else size
  }

  /** nmea_decode: validates the framing and the checksum of the sentence
      in `a[..size]` and splits a known sentence type into `dst`. */
  method Decode(dst: Sentence, a: array<char>, size: nat) returns (res: int)
    requires 5 <= size < a.Length
    modifies dst, a
    ensures res == DecodeResult(old(a[..]), size)
    ensures var s := old(a[..]);
      if Validated(s, size) && HeaderType(s).Some? then
        Decoded(dst.kind, dst.fields, a[..], s, HeaderType(s).value)
      else
        a[..] == s && unchanged(dst)
  {
    if a[0] != '$' || a[size - 5] != '*' || a[size - 2] != '\r' || a[size - 1] != '\n' || a[size] != NUL {
      return -EPROTO;
    }
    var actualCrc := CalculateCrc(a, 1, size - 6);
    var expectedCrc := HexByte(a[size - 4], a[size - 3]);
    if expectedCrc.None? {
      return -EPROTO;
    }
    if actualCrc as int != expectedCrc.value {
      return -EPROTO;
    }
    ghost var s := a[..];
    assert a[1..1 + (size - 6)] == s[1..size - 5];
    if HeaderType(s).Some? {
      HeaderLeavesRoom(s, size);
    }
    var header := a[1..FIELDS_START];
    var n := size - 5;
    if header == "GPGGA," {
      res := DecodeGga(dst, a, n, size);
    } else if header == "GPGLL," {
      res := DecodeGll(dst, a, n, size);
    } else if header == "GPGSA," {
      res := DecodeGsa(dst, a, n, size);
    } else if header == "GPGSV," {
      res := DecodeGsv(dst, a, n, size);
    } else if header == "GPRMC," {
      res := DecodeRmc(dst, a, n, size);
    } else if header == "GPVTG," {
      res := DecodeVtg(dst, a, n, size);
    } else {
      return -ENOSYS;
    }
    if res < 0 {
      return res;
    }
    return res + 5;
  }

  /** nmea_encode: writes the leading '$' and reports that no sentence
      type can be encoded. */
  method Encode(dst: array<char>, src: Sentence) returns (res: int)
    requires dst.Length >= 1
    modifies dst
    ensures res == -ENOSYS
    ensures dst[..] == old(dst[..])[0 := '$']
  {
    dst[0] := '$';
    res := -ENOSYS;
  }

  // ---------------------------------------------------------------------
  // What the split accepts, stated on the text of the sentence

  /** What follows the first `k` commas of the C string `t` (which ends at
      its first NUL); None when it has fewer than `k` commas. */
  function AfterCommas(t: seq<char>, k: nat): Option<seq<char>>
    decreases |t|
  {
    if k == 0 then Some(t)
    else if t == [] || t[0] == NUL then None
    else if t[0] == ',' then AfterCommas(t[1..], k - 1)
    else AfterCommas(t[1..], k)
  }

  /** The C string `t` contains a '*'. */
  predicate HasStar(t: seq<char>)
    decreases |t|
  {
    t != [] && t[0] != NUL && (t[0] == '*' || HasStar(t[1..]))
  }

  /** The fields text `t` holds at least `k` commas followed by a '*'. */
  predicate FieldsPresent(t: seq<char>, k: nat)
  {
    AfterCommas(t, k).Some? && HasStar(AfterCommas(t, k).value)
  }

  /** Number of ',' separators each sub-decoder splits at before the '*'. */
  function CommaCount(kind: SentenceType): nat
  {
    match kind
    case Gga => 13
    case Gll => 6
    case Gsa => 16
    case Gsv => 18
    case Rmc => 10
    case Vtg => 7
  }

  /** Every step of `plan` splits at ','. */
  predicate AllCommas(plan: seq<Step>)
    decreases |plan|
  {
    plan == [] || (plan[|plan| - 1].delim == Comma && AllCommas(plan[..|plan| - 1]))
  }

  lemma CommaStepsShape(kind: SentenceType)
    ensures |CommaSteps(kind)| == CommaCount(kind) && AllCommas(CommaSteps(kind))
  {
    var n := if kind == Gga then 12 else CommaCount(kind);
    AllStoredCommas(n);
    if kind == Gga {
      assert CommaSteps(Gga)[..12] == Stored(12);
    }
  }

  lemma {:induction false} AllStoredCommas(n: nat)
    ensures AllCommas(Stored(n))
  {
    if n > 0 {
      AllStoredCommas(n - 1);
      assert Stored(n)[..n - 1] == Stored(n - 1);
    }
  }

  /** One more comma: the text after k+1 commas is the text after one comma
      of the text after k commas. */
  lemma {:induction false} AfterOneMoreComma(t: seq<char>, k: nat)
    ensures AfterCommas(t, k + 1) ==
      if AfterCommas(t, k).None? then None else AfterCommas(AfterCommas(t, k).value, 1)
    decreases |t|
  {
    if k > 0 && t != [] && t[0] != NUL {
      if t[0] == ',' {
        AfterOneMoreComma(t[1..], k - 1);
      } else {
        AfterOneMoreComma(t[1..], k);
      }
    }
  }

  /** strsep at ',' from index i stops at the first comma after i, if the
      string has one. */
  lemma {:induction false} CommaStop(s: seq<char>, i: nat)
    requires i <= |s|
    ensures var j := NextStop(s, i, ',');
      if j < |s| && s[j] == ',' then AfterCommas(s[i..], 1) == Some(s[j + 1..]) else AfterCommas(s[i..], 1).None?
    decreases |s| - i
  {
    if i < |s| && s[i] != ',' && s[i] != NUL {
      assert s[i..][1..] == s[i + 1..];
      CommaStop(s, i + 1);
    }
  }

  /** strsep at '*' from index i finds a '*' exactly when the string has one. */
  lemma {:induction false} StarStop(s: seq<char>, i: nat)
    requires i <= |s|
    ensures var j := NextStop(s, i, '*'); j < |s| && s[j] == '*' <==> HasStar(s[i..])
    decreases |s| - i
  {
    if i < |s| && s[i] != '*' && s[i] != NUL {
      assert s[i..][1..] == s[i + 1..];
      StarStop(s, i + 1);
    }
  }

  /** A run of strsep calls at ',' succeeds exactly when the string holds
      that many commas, and leaves the cursor on the text after them. */
  lemma {:induction false} CommaSplit(s: seq<char>, i: nat, plan: seq<Step>)
    requires i <= |s| && AllCommas(plan)
    ensures var r := SplitSpec(s, Some(i), plan);
      |r.buf| == |s| &&
      if r.next.None? then AfterCommas(s[i..], |plan|).None?
      else r.next.value <= |s| && AfterCommas(s[i..], |plan|) == Some(r.buf[r.next.value..])
    decreases |plan|
  {
    if plan != [] {
      var n := |plan| - 1;
      var p := SplitSpec(s, Some(i), plan[..n]);
      var q := StrSepSpec(p.buf, p.next, ',');
      var r := SplitSpec(s, Some(i), plan);
      assert r == SplitLast(s, Some(i), plan);
      assert r.buf == q.buf && r.next == q.next;
      CommaSplit(s, i, plan[..n]);
      AfterOneMoreComma(s[i..], n);
      if p.next.Some? {
        CommaSep(p.buf, p.next.value);
      }
    }
  }

  /** One strsep at ',' from index c consumes exactly the text up to and
      including the next comma, if there is one. */
  lemma CommaSep(buf: seq<char>, c: nat)
    requires c <= |buf|
    ensures var q := StrSepSpec(buf, Some(c), ',');
      |q.buf| == |buf| &&
      if q.next.None? then AfterCommas(buf[c..], 1).None?
      else q.next.value <= |buf| && AfterCommas(buf[c..], 1) == Some(q.buf[q.next.value..])
  {
    var j := NextStop(buf, c, ',');
    CommaStop(buf, c);
    if j < |buf| && buf[j] == ',' {
      assert buf[j := NUL][j + 1..] == buf[j + 1..];
    }
  }

  /** Splitting at the commas of `commas` and then at '*' succeeds exactly
      when the text holds that many commas followed by a '*'. */
  lemma CommasThenStar(s: seq<char>, i: nat, commas: seq<Step>, last: Step)
    requires i <= |s| && AllCommas(commas) && last.delim == Star
    ensures SplitSpec(s, Some(i), commas + [last]).next.Some? <==> FieldsPresent(s[i..], |commas|)
  {
    var plan := commas + [last];
    assert plan[..|commas|] == commas;
    assert SplitSpec(s, Some(i), plan) == SplitLast(s, Some(i), plan);
    var p := SplitSpec(s, Some(i), commas);
    CommaSplit(s, i, commas);
    if p.next.Some? {
      StarStop(p.buf, p.next.value);
    }
  }

  /** The split of a known sentence type succeeds exactly when its fields
      text holds the sub-decoder's number of commas and then a '*'. */
  lemma FieldSplitSucceeds(s: seq<char>, kind: SentenceType)
    requires FIELDS_START <= |s|
    ensures FieldSplit(s, kind).next.Some? <==> FieldsPresent(s[FIELDS_START..], CommaCount(kind))
  {
    CommaStepsShape(kind);
    CommasThenStar(s, FIELDS_START, CommaSteps(kind), Step(Star, !(kind == Gga || kind == Gll)));
  }

  // ---------------------------------------------------------------------
  // Properties of nmea_decode

  /** nmea_decode returns the sentence size when the sentence is framed,
      carries its checksum, has a known type and holds all of that type's
      separators; -ENOSYS for a valid sentence of an unknown type; and
      -EPROTO otherwise. */
  lemma DecodeOutcome(s: seq<char>, size: nat)
    requires 5 <= size < |s|
    ensures DecodeResult(s, size) in {size, -EPROTO, -ENOSYS}
    ensures DecodeResult(s, size) == size <==>
      Validated(s, size) && HeaderType(s).Some? &&
      FieldsPresent(s[FIELDS_START..], CommaCount(HeaderType(s).value))
    ensures DecodeResult(s, size) == -ENOSYS <==> Validated(s, size) && HeaderType(s).None?
  {
    if Validated(s, size) && HeaderType(s).Some? {
      FieldSplitSucceeds(s, HeaderType(s).value);
    }
  }

  /** The checksum changes when exactly one character changes its low
      byte, so a sentence with one corrupted character is rejected. */
  lemma CrcDetectsOneChange(s: seq<char>, k: nat, c: char)
    requires k < |s| && Low8(c) != Low8(s[k])
    ensures Crc(s[k := c]) != Crc(s)
  {
    var t := s[k := c];
    assert s == s[..k] + [s[k]] + s[k + 1..];
    assert t == s[..k] + [c] + s[k + 1..];
    CrcConcat(s[..k] + [s[k]], s[k + 1..]);
    CrcConcat(s[..k], [s[k]]);
    CrcConcat(s[..k] + [c], s[k + 1..]);
    CrcConcat(s[..k], [c]);
    assert Crc([s[k]]) == Low8(s[k]) by { assert [s[k]][..0] == []; }
    assert Crc([c]) == Low8(c) by { assert [c][..0] == []; }
  }

  /** A GLL sentence with all fields empty is accepted. */
  lemma EmptyGllAccepted()
    ensures DecodeResult("$GPGLL,,,,,,,*7C\r\n\0", 18) == 18
  {
    var s := "$GPGLL,,,,,,,*7C\r\n\0";
    EmptyGllValidated();
    EmptyGllHeader();
    EmptyGllFields();
    DecodeOutcome(s, 18);
  }

  /** The empty GLL sentence is framed and carries its checksum 0x7C. */
  lemma EmptyGllValidated()
    ensures Validated("$GPGLL,,,,,,,*7C\r\n\0", 18)
  {
    var s := "$GPGLL,,,,,,,*7C\r\n\0";
    assert Framed(s, 18);
    assert s[1..18 - 5] == "GPGLL,,,,,,,";
    EmptyGllChecksum();
    assert TransmittedCrc(s, 18) == Some(0x7C);
  }

  /** The empty GLL sentence has the GLL header, and its fields text
      follows it. */
  lemma EmptyGllHeader()
    ensures var s := "$GPGLL,,,,,,,*7C\r\n\0";
      HeaderType(s) == Some(Gll) && s[FIELDS_START..] == ",,,,,,*7C\r\n\0"
  {
    var s := "$GPGLL,,,,,,,*7C\r\n\0";
    assert s[1..FIELDS_START] == "GPGLL,";
  }

  lemma EmptyGllChecksum()
    ensures Crc("GPGLL,,,,,,,") == 0x7C
  {
    GllHeaderChecksum();
    assert "GPGLL,,,,,,," == "GPGLL," + (",,," + ",,,");
    CrcConcat("GPGLL,", ",,," + ",,,");
    CrcOfDoubled(",,,");
  }

  /** The checksum of the GLL header, one character at a time. */
  lemma GllHeaderChecksum()
    ensures Crc("GPGLL,") == 0x7C
  {
    var s1 := [] + ['G'];
    var s2 := s1 + ['P'];
    var s3 := s2 + ['G'];
    var s4 := s3 + ['L'];
    var s5 := s4 + ['L'];
    var s6 := s5 + [','];
    CrcAppend([], 'G');
    CrcAppend(s1, 'P');
    CrcAppend(s2, 'G');
    CrcAppend(s3, 'L');
    CrcAppend(s4, 'L');
    CrcAppend(s5, ',');
    ByteOfG();
    ByteOfP();
    ByteOfL();
    ByteOfComma();
    assert s6 == "GPGLL,";
  }

  lemma ByteOfG() ensures Low8('G') == 0x47 {}
  lemma ByteOfP() ensures Low8('P') == 0x50 {}
  lemma ByteOfL() ensures Low8('L') == 0x4C {}
  lemma ByteOfComma() ensures Low8(',') == 0x2C {}

  lemma EmptyGllFields()
    ensures FieldsPresent(",,,,,,*7C\r\n\0", 6)
  {
    var t := ",,,,,,*7C\r\n\0";
    assert AfterCommas(t, 6) == Some("*7C\r\n\0") by {
      assert t[1..] == ",,,,,*7C\r\n\0";
      assert t[2..] == ",,,,*7C\r\n\0";
      assert t[3..] == ",,,*7C\r\n\0";
      assert t[4..] == ",,*7C\r\n\0";
      assert t[5..] == ",*7C\r\n\0";
      assert t[6..] == "*7C\r\n\0";
    }
  }
}
