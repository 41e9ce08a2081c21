/** The two environment-string parsers run at static initialisation: the
    memory limit for AutoArray (a decimal number with an optional unit),
    and the per-file block-size overrides of PosixFdInput (a `:`-separated
    list of `key=value` parts, `::` standing for a literal `:`). The
    environment lookup becomes an optional string parameter, and the
    process exit on an unparsable limit becomes an error result. */
module StaticInit {
  import opened Base
  import opened NumberSerialisation
  import opened StreamNumber
  import opened NameMap
  import opened Folds

  const COLON: byte := ':' as byte
  const EQUALS: byte := '=' as byte

  const MAXMEM_UNPARSABLE: string := "Unable to parse LIBMAUS2_AUTOARRAY_AUTOARRAYMAXMEM"

  // -------------------------------------------------------------------------
  // Units

  /** The unit letters, lower case (binary) and upper case (decimal), in
      increasing order of magnitude. */
  const LOWER_UNITS: seq<byte> := ['k' as byte, 'm' as byte, 'g' as byte, 't' as byte, 'p' as byte, 'e' as byte]
  const UPPER_UNITS: seq<byte> := ['K' as byte, 'M' as byte, 'G' as byte, 'T' as byte, 'P' as byte, 'E' as byte]

  /** The multiplier a unit letter stands for; any other character is not
      a unit. */
  function UnitMultiplier(c: byte): (r: Option<nat>)
    ensures r.Some? ==> !IsDigit(c) && r.value > 0
  {
    if c == 'k' as byte then Some(1024)
    else if c == 'K' as byte then Some(1000)
    else if c == 'm' as byte then Some(1024 * 1024)
    else if c == 'M' as byte then Some(1000 * 1000)
    else if c == 'g' as byte then Some(1024 * 1024 * 1024)
    else if c == 'G' as byte then Some(1000 * 1000 * 1000)
    else if c == 't' as byte then Some(1024 * 1024 * 1024 * 1024)
    else if c == 'T' as byte then Some(1000 * 1000 * 1000 * 1000)
    else if c == 'p' as byte then Some(1024 * 1024 * 1024 * 1024 * 1024)
    else if c == 'P' as byte then Some(1000 * 1000 * 1000 * 1000 * 1000)
    else if c == 'e' as byte then Some(1024 * 1024 * 1024 * 1024 * 1024 * 1024)
    else if c == 'E' as byte then Some(1000 * 1000 * 1000 * 1000 * 1000 * 1000)
    else None
  }

  function Power(b: nat, e: nat): nat
  {
    if e == 0 then 1 else b * Power(b, e - 1)
  }

  /** The i-th lower-case unit is 1024^(i+1), the i-th upper-case unit
      1000^(i+1), and no other character is a unit. */
  lemma UnitMultiplierPowers()
    ensures forall i :: 0 <= i < 6 ==> UnitMultiplier(LOWER_UNITS[i]) == Some(Power(1024, i + 1))
    ensures forall i :: 0 <= i < 6 ==> UnitMultiplier(UPPER_UNITS[i]) == Some(Power(1000, i + 1))
    ensures forall c :: UnitMultiplier(c).Some? <==> c in LOWER_UNITS || c in UPPER_UNITS
  {
    assert Power(1024, 6) == 1024 * 1024 * 1024 * 1024 * 1024 * 1024;
    assert Power(1000, 6) == 1000 * 1000 * 1000 * 1000 * 1000 * 1000;
  }

  // -------------------------------------------------------------------------
  // Arithmetic modulo 2^64

  /** Reducing before a multiply and add gives the same value modulo
      2^64 as reducing after. */
  lemma WrapMulAdd(x: nat, f: nat, d: nat)
    ensures ((x % UINT64_LIMIT) * f % UINT64_LIMIT + d) % UINT64_LIMIT == (x * f + d) % UINT64_LIMIT
  {
    var M := UINT64_LIMIT;
    var r := x % M;
    DivMod(x, M);
    MulFacts(x / M * M, r, f);
    MulFacts(x / M, f, M);
    assert x * f + d == (r * f + d) + (x / M * f) * M;
    ModAddMultiple(r * f + d, x / M * f, M);
    DivMod(r * f, M);
    assert r * f + d == (r * f % M + d) + (r * f / M) * M;
    ModAddMultiple(r * f % M + d, r * f / M, M);
  }

  // -------------------------------------------------------------------------
  // The AutoArray memory limit

  /** getMaxMem on the value of the variable, if set: leading digits
      accumulated modulo 2^64, then one optional unit, then nothing. */
  function MaxMem(env: Option<seq<byte>>): (r: Result<nat>)
    ensures r.Ok? ==> r.value < UINT64_LIMIT
  {
    match env
    case None => Ok(UINT64_MAX)
    case Some(s) =>
      var i := DigitRun(s);
      DigitRunDigits(s);
      var v := DigitsValue(s[..i]) % UINT64_LIMIT;
      if i == |s| then Ok(v)
      else if i + 1 < |s| || UnitMultiplier(s[i]).None? then Err(MAXMEM_UNPARSABLE)
      else Ok(v * UnitMultiplier(s[i]).value % UINT64_LIMIT)
  }

  /** A limit of digits alone is their number modulo 2^64. */
  lemma MaxMemDigits(s: seq<byte>)
    requires AllDigits(s)
    ensures MaxMem(Some(s)) == Ok(DigitsValue(s) % UINT64_LIMIT)
  {
    DigitRunPrefix(s, []);
    assert s + [] == s && s[..|s|] == s;
  }

  /** Digits and one unit letter give the number times the unit, modulo
      2^64. */
  lemma MaxMemUnit(d: seq<byte>, c: byte)
    requires AllDigits(d) && UnitMultiplier(c).Some?
    ensures MaxMem(Some(d + [c])) == Ok(DigitsValue(d) * UnitMultiplier(c).value % UINT64_LIMIT)
  {
    var s := d + [c];
    DigitRunPrefix(d, [c]);
    assert s[..|d|] == d;
    ModMulReduce(DigitsValue(d), UnitMultiplier(c).value);
  }

  /** The limit is accepted only in those two shapes. */
  lemma MaxMemAccepts(s: seq<byte>)
    ensures MaxMem(Some(s)).Ok? <==>
            AllDigits(s) || (|s| > 0 && AllDigits(s[..|s| - 1]) && UnitMultiplier(s[|s| - 1]).Some?)
  {
    DigitRunDigits(s);
    var i := DigitRun(s);
    if AllDigits(s) {
      MaxMemDigits(s);
    } else if |s| > 0 && AllDigits(s[..|s| - 1]) && UnitMultiplier(s[|s| - 1]).Some? {
      assert s == s[..|s| - 1] + [s[|s| - 1]];
      MaxMemUnit(s[..|s| - 1], s[|s| - 1]);
    }
  }

  lemma ModMulReduce(x: nat, f: nat)
    ensures (x % UINT64_LIMIT) * f % UINT64_LIMIT == x * f % UINT64_LIMIT
  {
    WrapMulAdd(x, f, 0);
    ModAddMultiple((x % UINT64_LIMIT) * f % UINT64_LIMIT, 0, UINT64_LIMIT);
  }

  /** getMaxMem: the digits are accumulated as v = 10 v + digit in 64-bit
      arithmetic, then one unit letter may multiply v; anything else ends
      the program, here an error. */
  method GetMaxMem(env: Option<seq<byte>>) returns (r: Result<nat>)
    ensures r == MaxMem(env)
  {
    if env.None? {
      return Ok(UINT64_MAX);
    }
    var smem := env.value;
    DigitRunDigits(smem);
    var ok := true;
    var i := 0;
    var v := 0;
    while i < |smem| && IsDigit(smem[i])
      invariant i <= DigitRun(smem)
      invariant v == DigitsValue(smem[..i]) % UINT64_LIMIT
    {
      assert smem[..i + 1][..i] == smem[..i];
      WrapMulAdd(DigitsValue(smem[..i]), 10, smem[i] as nat - 48);
      ModAddMultiple((v * 10 % UINT64_LIMIT + (smem[i] as nat - 48)) % UINT64_LIMIT, 0, UINT64_LIMIT);
      v := v * 10 % UINT64_LIMIT;
      v := (v + (smem[i] as nat - 48)) % UINT64_LIMIT;
      i := i + 1;
    }
    assert i == DigitRun(smem);
    if i < |smem| {
      var multiplier := 1;
      match UnitMultiplier(smem[i]) {
        case None => ok := false;
        case Some(m) => multiplier := m;
      }
      if ok {
        v := v * multiplier % UINT64_LIMIT;
        i := i + 1;
      }
    }
    ok := ok && i == |smem|;
    if ok {
      r := Ok(v);
    } else {
      r := Err(MAXMEM_UNPARSABLE);
    }
  }

  // -------------------------------------------------------------------------
  // Splitting the override list

  /** The length of the part s starts with: it runs up to the first `:`
      that is not the first of a `::` pair. */
  function PartEnd(s: seq<byte>): (k: nat)
    ensures k <= |s|
    decreases |s|
  {
    if |s| == 0 || (s[0] == COLON && !(|s| >= 2 && s[1] == COLON)) then 0
    else if s[0] != COLON then 1 + PartEnd(s[1..])
    else 2 + PartEnd(s[2..])
  }

  /** Every `:` comes in a `::` pair, pairs read from the left. */
  predicate Escaped(t: seq<byte>)
    decreases |t|
  {
    |t| == 0 ||
    (t[0] != COLON && Escaped(t[1..])) ||
    (|t| >= 2 && t[0] == COLON && t[1] == COLON && Escaped(t[2..]))
  }

  /** A part ends at the end of the string or at a lone `:`, and its own
      colons are all paired. */
  lemma {:induction false} PartEndStops(s: seq<byte>)
    ensures var k := PartEnd(s);
            (k == |s| || (s[k] == COLON && (k + 1 == |s| || s[k + 1] != COLON))) &&
            Escaped(s[..k])
    decreases |s|
  {
    var k := PartEnd(s);
    if |s| == 0 || (s[0] == COLON && !(|s| >= 2 && s[1] == COLON)) {
    } else if s[0] != COLON {
      PartEndStops(s[1..]);
      assert s[..k][1..] == s[1..][..k - 1];
    } else {
      PartEndStops(s[2..]);
      assert s[..k][2..] == s[2..][..k - 2];
    }
  }

  /** The parts of the override string, escaped as they stand. Every
      separator ends a part, and a trailing one starts none. */
  function Parts(s: seq<byte>): (ps: seq<seq<byte>>)
    decreases |s|
  {
    if |s| == 0 then []
    else
      var k := PartEnd(s);
      [s[..k]] + (if k < |s| then Parts(s[k + 1..]) else [])
  }

  /** The compaction of a part: `::` becomes `:`. A lone `:` (which a part
      never holds) is kept, skipping the character after it. */
  function Unescape(t: seq<byte>): (r: seq<byte>)
    decreases |t|
  {
    if |t| == 0 then []
    else if t[0] != COLON then [t[0]] + Unescape(t[1..])
    else [COLON] + Unescape(if |t| >= 2 then t[2..] else [])
  }

  /** The inverse: every `:` doubled. */
  function Escape(t: seq<byte>): (r: seq<byte>)
    ensures |r| >= |t|
    ensures |t| > 0 ==> |r| > 0 && r[0] == t[0]
    decreases |t|
  {
    if |t| == 0 then []
    else (if t[0] == COLON then [COLON, COLON] else [t[0]]) + Escape(t[1..])
  }

  /** Escaping gives an escaped string that unescapes back. */
  lemma {:induction false} UnescapeEscape(t: seq<byte>)
    ensures Escaped(Escape(t)) && Unescape(Escape(t)) == t
    decreases |t|
  {
    if |t| > 0 {
      UnescapeEscape(t[1..]);
      var e := Escape(t);
      if t[0] == COLON {
        assert e[2..] == Escape(t[1..]);
      } else {
        assert e[1..] == Escape(t[1..]);
      }
    }
  }

  /** An escaped string is the escape of what it unescapes to. */
  lemma {:induction false} EscapeUnescape(t: seq<byte>)
    requires Escaped(t)
    ensures Escape(Unescape(t)) == t
    decreases |t|
  {
    if |t| > 0 {
      if t[0] != COLON {
        EscapeUnescape(t[1..]);
        assert Unescape(t)[1..] == Unescape(t[1..]);
      } else {
        EscapeUnescape(t[2..]);
        assert Unescape(t)[1..] == Unescape(t[2..]);
      }
    }
  }

  /** A part scan runs over an escaped string to whatever follows it. */
  lemma {:induction false} PartEndEscape(t: seq<byte>, x: seq<byte>)
    ensures PartEnd(Escape(t) + x) == |Escape(t)| + PartEnd(x)
    decreases |t|
  {
    if |t| == 0 {
      assert Escape(t) + x == x;
    } else {
      PartEndEscape(t[1..], x);
      var tail := Escape(t[1..]) + x;
      if t[0] == COLON {
        var s := [COLON, COLON] + tail;
        assert Escape(t) + x == s;
        assert s[2..] == tail;
      } else {
        var s := [t[0]] + tail;
        assert Escape(t) + x == s;
        assert s[1..] == tail;
      }
    }
  }

  /** The parts escaped and joined with `:`. */
  function JoinEscaped(ts: seq<seq<byte>>): (s: seq<byte>)
    decreases |ts|
  {
    if |ts| == 0 then []
    else if |ts| == 1 then Escape(ts[0])
    else Escape(ts[0]) + [COLON] + JoinEscaped(ts[1..])
  }

  /** A part the join can carry: one that is empty or starts with `:`
      would merge with the separator before it. */
  predicate Joinable(t: seq<byte>)
  {
    |t| > 0 && t[0] != COLON
  }

  /** A separator followed by anything but another `:` ends a part at
      once. */
  lemma PartEndSeparator(x: seq<byte>)
    requires |x| == 0 || x[0] != COLON
    ensures PartEnd([COLON] + x) == 0
  {
  }

  /** A string made of a part, a separator and more splits after the
      part. */
  lemma PartsCons(e: seq<byte>, x: seq<byte>)
    requires PartEnd(e + [COLON] + x) == |e|
    ensures Parts(e + [COLON] + x) == [e] + Parts(x)
  {
    var s := e + [COLON] + x;
    assert s[..|e|] == e && s[|e| + 1..] == x;
  }

  /** Every part escaped. */
  function EscapeAll(ts: seq<seq<byte>>): (r: seq<seq<byte>>)
    ensures |r| == |ts|
    decreases |ts|
  {
    if |ts| == 0 then [] else [Escape(ts[0])] + EscapeAll(ts[1..])
  }

  lemma {:induction false} EscapeAllIndex(ts: seq<seq<byte>>)
    ensures forall i :: 0 <= i < |ts| ==> EscapeAll(ts)[i] == Escape(ts[i])
    decreases |ts|
  {
    if |ts| > 0 {
      EscapeAllIndex(ts[1..]);
      assert forall i :: 1 <= i < |ts| ==> EscapeAll(ts)[i] == EscapeAll(ts[1..])[i - 1];
    }
  }

  /** Splitting a join of joinable parts gives back each part, escaped. */
  lemma {:induction false} PartsJoin(ts: seq<seq<byte>>)
    requires forall i :: 0 <= i < |ts| ==> Joinable(ts[i])
    ensures Parts(JoinEscaped(ts)) == EscapeAll(ts)
    decreases |ts|
  {
    if |ts| == 1 {
      var e := Escape(ts[0]);
      PartEndEscape(ts[0], []);
      assert e + [] == e && e[..|e|] == e;
      assert Parts(e) == [e];
    } else if |ts| > 1 {
      var e := Escape(ts[0]);
      var s' := JoinEscaped(ts[1..]);
      assert Joinable(ts[1]);
      assert s'[0] == ts[1][0];
      PartEndSeparator(s');
      PartEndEscape(ts[0], [COLON] + s');
      assert e + ([COLON] + s') == e + [COLON] + s';
      PartsCons(e, s');
      PartsJoin(ts[1..]);
    }
  }

  /** The split parts of a join of joinable parts unescape to the parts. */
  lemma PartsJoinRoundTrip(ts: seq<seq<byte>>)
    requires forall i :: 0 <= i < |ts| ==> Joinable(ts[i])
    ensures |Parts(JoinEscaped(ts))| == |ts|
    ensures forall i :: 0 <= i < |ts| ==> Unescape(Parts(JoinEscaped(ts))[i]) == ts[i]
  {
    PartsJoin(ts);
    EscapeAllIndex(ts);
    forall i | 0 <= i < |ts|
      ensures Unescape(Parts(JoinEscaped(ts))[i]) == ts[i]
    {
      UnescapeEscape(ts[i]);
    }
  }

  // -------------------------------------------------------------------------
  // Reading one part

  /** The value of a part: a number as `istr >> u` reads it, then
      optionally exactly one unit letter; anything else is unusable. */
  function ParseValue(val: seq<byte>): (r: Option<nat>)
    ensures r.Some? ==> r.value < UINT64_LIMIT
  {
    match ExtractNumber(val)
    case Err(_) => None
    case Ok(d) =>
      if |d.rest| == 0 then Some(d.value)
      else if |d.rest| == 1 && UnitMultiplier(d.rest[0]).Some? then
        Some(d.value * UnitMultiplier(d.rest[0]).value % UINT64_LIMIT)
      else None
  }

  /** A decimal number reads as itself. */
  lemma ParseValueDecimal(n: nat)
    requires n < UINT64_LIMIT
    ensures ParseValue(Decimal(n)) == Some(n)
  {
    ExtractDecimal(n, []);
    assert Decimal(n) + [] == Decimal(n);
  }

  /** A decimal number and one character: a unit letter multiplies it
      modulo 2^64, any other character makes it unusable. */
  lemma ParseValueUnit(n: nat, c: byte)
    requires n < UINT64_LIMIT && !IsDigit(c)
    ensures UnitMultiplier(c).Some? ==> ParseValue(Decimal(n) + [c]) == Some(n * UnitMultiplier(c).value % UINT64_LIMIT)
    ensures UnitMultiplier(c).None? ==> ParseValue(Decimal(n) + [c]) == None
  {
    ExtractDecimal(n, [c]);
  }

  /** More than one character after the number makes it unusable. */
  lemma ParseValueRejects(n: nat, c: byte, x: seq<byte>)
    requires n < UINT64_LIMIT && !IsDigit(c) && |x| > 0
    ensures ParseValue(Decimal(n) + [c] + x) == None
  {
    var t := [c] + x;
    ExtractDecimal(n, t);
    assert Decimal(n) + [c] + x == Decimal(n) + t;
    ParseValueLongRest(Decimal(n) + t);
  }

  lemma ParseValueLongRest(val: seq<byte>)
    requires ExtractNumber(val).Ok? && |ExtractNumber(val).value.rest| > 1
    ensures ParseValue(val) == None
  {
  }

  /** One unescaped part applied to the map: split at the first `=`, and
      a usable, non-zero value sets its key; anything else is ignored. */
  function ApplyPart(M: Assoc, part: seq<byte>): Assoc
  {
    if EQUALS in part then
      var m := FirstIndex(part, EQUALS);
      var u := ParseValue(part[m + 1..]);
      if u.Some? && u.value > 0 then Insert(M, part[..m], u.value) else M
    else M
  }

  function ApplyEscaped(M: Assoc, ppart: seq<byte>): Assoc
  {
    ApplyPart(M, Unescape(ppart))
  }

  /** getPosixFdInputBlockSizeOverride on the value of the variable, if
      set: every part applied in order to an empty map. */
  function BlockSizeOverride(env: Option<seq<byte>>): Assoc
  {
    match env
    case None => []
    case Some(s) => Steps(ApplyEscaped, [], Parts(s))
  }

  /** The part for a key and a value, as a user writes it. */
  function Render(e: (Key, nat)): seq<byte>
  {
    e.0 + [EQUALS] + Decimal(e.1)
  }

  /** A pair the override string can express: a non-zero 64-bit value,
      and a key with no `=` that does not start with `:`. */
  predicate Expressible(e: (Key, nat))
  {
    0 < e.1 < UINT64_LIMIT && EQUALS !in e.0 && (|e.0| > 0 ==> e.0[0] != COLON)
  }

  /** A rendered part sets its key to its value. */
  lemma ApplyRendered(M: Assoc, e: (Key, nat))
    requires Expressible(e)
    ensures ApplyEscaped(M, Escape(Render(e))) == Insert(M, e.0, e.1)
  {
    var part := Render(e);
    UnescapeEscape(part);
    assert part[|e.0|] == EQUALS;
    var m := FirstIndex(part, EQUALS);
    assert forall k :: 0 <= k < |e.0| ==> part[k] == e.0[k];
    assert m == |e.0|;
    assert part[..m] == e.0 && part[m + 1..] == Decimal(e.1);
    ParseValueDecimal(e.1);
  }

  /** Every pair rendered as a part. */
  function RenderAll(es: Assoc): (r: seq<seq<byte>>)
    ensures |r| == |es|
    decreases |es|
  {
    if |es| == 0 then [] else [Render(es[0])] + RenderAll(es[1..])
  }

  lemma {:induction false} StepsRendered(M: Assoc, es: Assoc)
    requires forall i :: 0 <= i < |es| ==> Expressible(es[i])
    ensures Steps(ApplyEscaped, M, EscapeAll(RenderAll(es))) == InsertAll(M, es)
    decreases |es|
  {
    if |es| > 0 {
      ApplyRendered(M, es[0]);
      StepsRendered(Insert(M, es[0].0, es[0].1), es[1..]);
      assert RenderAll(es)[1..] == RenderAll(es[1..]);
    }
  }

  lemma {:induction false} RenderAllJoinable(es: Assoc)
    requires forall i :: 0 <= i < |es| ==> Expressible(es[i])
    ensures forall i :: 0 <= i < |es| ==> Joinable(RenderAll(es)[i])
    decreases |es|
  {
    if |es| > 0 {
      RenderJoinable(es[0]);
      RenderAllJoinable(es[1..]);
      assert forall i :: 1 <= i < |es| ==> RenderAll(es)[i] == RenderAll(es[1..])[i - 1];
    }
  }

  /** An override string written from expressible pairs reads back as
      those pairs set one after another. */
  lemma OverrideRendered(es: Assoc)
    requires forall i :: 0 <= i < |es| ==> Expressible(es[i])
    ensures BlockSizeOverride(Some(JoinEscaped(RenderAll(es)))) == InsertAll([], es)
  {
    RenderAllJoinable(es);
    PartsJoin(RenderAll(es));
    StepsRendered([], es);
  }

  lemma RenderJoinable(e: (Key, nat))
    requires Expressible(e)
    ensures Joinable(Render(e))
  {
    if |e.0| == 0 {
      assert Render(e)[0] == EQUALS;
    } else {
      assert Render(e)[0] == e.0[0];
    }
  }

  /** Setting keys in order leaves a key no pair names as it was. */
  lemma {:induction false} InsertAllUntouched(M: Assoc, es: Assoc, k: Key)
    requires forall j :: 0 <= j < |es| ==> es[j].0 != k
    ensures Lookup(InsertAll(M, es), k) == Lookup(M, k)
    decreases |es|
  {
    if |es| > 0 {
      LookupInsert(M, es[0].0, es[0].1, k);
      assert forall j :: 0 <= j < |es[1..]| ==> es[1..][j] == es[j + 1];
      InsertAllUntouched(Insert(M, es[0].0, es[0].1), es[1..], k);
    }
  }

  /** Setting keys in order: the last pair with a key decides its value. */
  lemma {:induction false} InsertAllLastWins(M: Assoc, es: Assoc, i: nat)
    requires i < |es|
    requires forall j :: i < j < |es| ==> es[j].0 != es[i].0
    ensures Lookup(InsertAll(M, es), es[i].0) == Some(es[i].1)
    decreases |es|
  {
    var M' := Insert(M, es[0].0, es[0].1);
    var k := es[i].0;
    assert forall j :: 0 <= j < |es[1..]| ==> es[1..][j] == es[j + 1];
    if i > 0 {
      InsertAllLastWins(M', es[1..], i - 1);
    } else {
      LookupInsert(M, k, es[0].1, k);
      InsertAllUntouched(M', es[1..], k);
    }
  }

  // -------------------------------------------------------------------------
  // The override parser

  /** The parts of s from position p on; past the end there are none. */
  function PartsFrom(s: seq<byte>, p: nat): seq<seq<byte>>
  {
    if p < |s| then Parts(s[p..]) else []
  }

  /** The parts from p on: the part up to the scan's end, then the parts
      after the separator there. */
  lemma PartsFromStep(s: seq<byte>, p: nat, h: nat)
    requires p < |s| && h == p + PartEnd(s[p..])
    ensures Escaped(s[p..h]) && PartsFrom(s, p) == [s[p..h]] + PartsFrom(s, h + 1)
  {
    var rest := s[p..];
    var k := h - p;
    PartEndStops(rest);
    assert rest[..k] == s[p..h];
    var tail := if k < |rest| then Parts(rest[k + 1..]) else [];
    assert Parts(rest) == [rest[..k]] + tail;
    assert tail == PartsFrom(s, h + 1) by {
      if h + 1 < |s| {
        assert rest[k + 1..] == s[h + 1..];
      } else if h < |s| {
        assert rest[k + 1..] == [];
      }
    }
  }

  /** Applying the part at p moves the fold on to the parts after it. */
  lemma OverrideStep(s: seq<byte>, p: nat, h: nat, M: Assoc, M': Assoc)
    requires p < |s| && h == p + PartEnd(s[p..])
    requires M' == ApplyPart(M, Unescape(s[p..h]))
    ensures Steps(ApplyEscaped, M, PartsFrom(s, p)) == Steps(ApplyEscaped, M', PartsFrom(s, h + 1))
  {
    PartsFromStep(s, p, h);
    StepsCons(ApplyEscaped, M, s[p..h], PartsFrom(s, h + 1));
  }

  /** One step of a fold over a sequence with a first element. */
  lemma StepsCons<T, A>(step: (A, T) -> A, acc: A, x: T, xs: seq<T>)
    ensures Steps(step, acc, [x] + xs) == Steps(step, step(acc, x), xs)
  {
    assert ([x] + xs)[1..] == xs;
  }

  /** The scan for the end of the part at p: step over ordinary
      characters and `::` pairs. */
  method ScanPart(s: seq<byte>, p: nat) returns (h: nat)
    requires p <= |s|
    ensures h == p + PartEnd(s[p..])
  {
    h := p;
    while h < |s| && (s[h] != COLON || (h + 1 < |s| && s[h + 1] == COLON))
      invariant p <= h <= |s|
      invariant h - p + PartEnd(s[h..]) == PartEnd(s[p..])
      decreases |s| - h
    {
      if s[h] != COLON {
        assert s[h..][1..] == s[h + 1..];
        h := h + 1;
      } else {
        assert s[h..][2..] == s[h + 2..];
        h := h + 2;
      }
    }
  }

  /** A plain character of an escaped string is kept as it is. */
  lemma UnescapePlain(t: seq<byte>, i: nat)
    requires i < |t| && Escaped(t[i..]) && t[i] != COLON
    ensures Escaped(t[i + 1..]) && Unescape(t[i..]) == [t[i]] + Unescape(t[i + 1..])
  {
    assert t[i..][1..] == t[i + 1..];
  }

  /** A `:` of an escaped string is the first of a pair, read as one `:`. */
  lemma UnescapePair(t: seq<byte>, i: nat)
    requires i < |t| && Escaped(t[i..]) && t[i] == COLON
    ensures i + 1 < |t| && t[i + 1] == COLON
    ensures Escaped(t[i + 2..]) && Unescape(t[i..]) == [COLON] + Unescape(t[i + 2..])
  {
    assert t[i..][1] == t[i + 1];
    assert t[i..][2..] == t[i + 2..];
  }

  lemma ConcatAssoc<T>(a: seq<T>, b: seq<T>, c: seq<T>)
    ensures (a + b) + c == a + (b + c)
  {
  }

  /** The in-place compaction of a part: `::` pairs become one `:`. */
  method CompactPart(ppart: seq<byte>) returns (part: seq<byte>)
    requires Escaped(ppart)
    ensures part == Unescape(ppart)
  {
    var vpart := new byte[|ppart|](i requires 0 <= i < |ppart| => ppart[i]);
    var o := 0;
    var i := 0;
    ghost var out: seq<byte> := [];
    assert ppart[0..] == ppart;
    while i < vpart.Length
      invariant o <= i <= vpart.Length == |ppart|
      invariant vpart[..o] == out
      invariant forall k :: i <= k < |ppart| ==> vpart[k] == ppart[k]
      invariant Escaped(ppart[i..])
      invariant out + Unescape(ppart[i..]) == Unescape(ppart)
    {
      var c := vpart[i];
      var next := if c == COLON then i + 2 else i + 1;
      if c != COLON {
        UnescapePlain(ppart, i);
      } else {
        UnescapePair(ppart, i);
        assert i + 1 < vpart.Length && vpart[i + 1] == COLON;
      }
      ConcatAssoc(out, [c], Unescape(ppart[next..]));
      vpart[o] := c;
      o, i := o + 1, next;
      assert vpart[..o] == out + [c];
      out := out + [c];
    }
    assert ppart[i..] == [];
    part := vpart[..o];
  }

  /** A compacted part: split at the first `=`, read the value, and set
      the key when the value is usable and non-zero. */
  method SetEntry(M0: Assoc, part: seq<byte>) returns (M: Assoc)
    ensures M == ApplyPart(M0, part)
  {
    M := M0;
    if EQUALS in part {
      var m := FirstIndex(part, EQUALS);
      var key := part[..m];
      var val := part[m + 1..];
      var u := ParseValue(val);
      if u.Some? && u.value > 0 {
        M := Insert(M, key, u.value);
      }
    }
  }

  /** getPosixFdInputBlockSizeOverride: scan each part, compact it, and
      set its key when its value is usable and non-zero. */
  method GetPosixFdInputBlockSizeOverride(env: Option<seq<byte>>) returns (M: Assoc)
    ensures M == BlockSizeOverride(env)
  {
    M := [];
    if env.Some? {
      var s := env.value;
      var p := 0;
      assert s[0..] == s;
      assert BlockSizeOverride(env) == Steps(ApplyEscaped, M, PartsFrom(s, 0));
      while p < |s|
        invariant BlockSizeOverride(env) == Steps(ApplyEscaped, M, PartsFrom(s, p))
        decreases |s| + 1 - p
      {
        p, M := OverridePart(s, p, M);
      }
    }
  }

  /** One round of the loop: scan the part starting at p, compact it and
      set its entry; the fold moves on to the parts after its end. */
  method OverridePart(s: seq<byte>, p: nat, M0: Assoc) returns (p': nat, M: Assoc)
    requires p < |s|
    ensures p < p'
    ensures Steps(ApplyEscaped, M0, PartsFrom(s, p)) == Steps(ApplyEscaped, M, PartsFrom(s, p'))
  {
    var h := ScanPart(s, p);
    PartsFromStep(s, p, h);
    var part := CompactPart(s[p..h]);
    M := SetEntry(M0, part);
    OverrideStep(s, p, h, M0, M);
    p' := h + 1;
  }
}
