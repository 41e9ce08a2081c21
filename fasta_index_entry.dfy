/** FastAIndexEntry: one line of a `.fai` index (sequence name, length,
    file offset of the first base, bases per line, bytes per line) and its
    binary serialisation. Strings are byte strings, as C++ std::string. */
module FastAEntry {
  import opened Base
  import opened NumberSerialisation

  /** A std::string: a sequence of bytes. */
  type Text = seq<byte>

  datatype Entry = Entry(name: Text, length: nat, offset: nat, basesperline: nat, bytesperline: nat)

  /** The default constructor: empty name, every number 0. */
  function DefaultEntry(): (e: Entry)
    ensures e.name == [] && e.length == 0 && e.offset == 0
    ensures e.basesperline == 0 && e.bytesperline == 0
  {
    Entry([], 0, 0, 0, 0)
  }

  /** Every field fits the uint64_t the source stores it in. */
  predicate Fits(e: Entry)
  {
    |e.name| < UINT64_LIMIT && e.length < UINT64_LIMIT && e.offset < UINT64_LIMIT &&
    e.basesperline < UINT64_LIMIT && e.bytesperline < UINT64_LIMIT
  }

  // -------------------------------------------------------------------------
  // StringSerialisation (not part of this model): an 8-byte length, then
  // the bytes of the string

  function SerialiseString(s: Text): (r: seq<byte>)
    requires |s| < UINT64_LIMIT
    ensures |r| == 8 + |s| && r[8..] == s
  {
    NumberSerialisation.SerialiseNumber(|s|) + s
  }

  function DeserialiseString(s: seq<byte>): (r: Result<Decoded<Text>>)
    ensures r.Ok? ==> |r.value.value| + 8 + |r.value.rest| == |s|
  {
    match NumberSerialisation.DeserialiseNumber(s)
    case Err(msg) => Err(msg)
    case Ok(d) =>
      if d.value > |d.rest| then Err("EOF in deserialiseString")
      else Ok(Decoded(d.rest[..d.value], d.rest[d.value..]))
  }

  lemma StringRoundTrip(t: Text, rest: seq<byte>)
    requires |t| < UINT64_LIMIT
    ensures DeserialiseString(SerialiseString(t) + rest) == Ok(Decoded(t, rest))
  {
    var s := SerialiseString(t) + rest;
    assert s == NumberSerialisation.SerialiseNumber(|t|) + (t + rest);
    NumberSerialisation.NumberRoundTrip(|t|, t + rest);
    assert (t + rest)[..|t|] == t && (t + rest)[|t|..] == rest;
  }

  // -------------------------------------------------------------------------
  // serialise / deserialise

  /** serialise(out): the name, then length, offset, basesperline and
      bytesperline as 8-byte numbers; the count it returns is |r|. */
  function SerialiseEntry(e: Entry): (r: seq<byte>)
    requires Fits(e)
    ensures |r| == |SerialiseString(e.name)| + 32
  {
    SerialiseString(e.name)
      + NumberSerialisation.SerialiseNumber(e.length)
      + NumberSerialisation.SerialiseNumber(e.offset)
      + NumberSerialisation.SerialiseNumber(e.basesperline)
      + NumberSerialisation.SerialiseNumber(e.bytesperline)
  }

  /** deserialise(in): the same fields read in the same order; any short
      read is the stream's end-of-file error. */
  function DeserialiseEntry(s: seq<byte>): (r: Result<Decoded<Entry>>)
    ensures r.Ok? ==> |r.value.rest| + 8 + |r.value.value.name| + 32 == |s|
  {
    match DeserialiseString(s)
    case Err(m) => Err(m)
    case Ok(name) =>
      match NumberSerialisation.DeserialiseNumber(name.rest)
      case Err(m) => Err(m)
      case Ok(length) =>
        match NumberSerialisation.DeserialiseNumber(length.rest)
        case Err(m) => Err(m)
        case Ok(offset) =>
          match NumberSerialisation.DeserialiseNumber(offset.rest)
          case Err(m) => Err(m)
          case Ok(bases) =>
            match NumberSerialisation.DeserialiseNumber(bases.rest)
            case Err(m) => Err(m)
            case Ok(bytes) =>
              Ok(Decoded(Entry(name.value, length.value, offset.value, bases.value, bytes.value), bytes.rest))
  }

  /** deserialise inverts serialise, leaving the bytes after the entry. */
  lemma EntryRoundTrip(e: Entry, rest: seq<byte>)
    requires Fits(e)
    ensures DeserialiseEntry(SerialiseEntry(e) + rest) == Ok(Decoded(e, rest))
  {
    var n1 := NumberSerialisation.SerialiseNumber(e.length);
    var n2 := NumberSerialisation.SerialiseNumber(e.offset);
    var n3 := NumberSerialisation.SerialiseNumber(e.basesperline);
    var n4 := NumberSerialisation.SerialiseNumber(e.bytesperline);
    assert SerialiseEntry(e) + rest == SerialiseString(e.name) + (n1 + (n2 + (n3 + (n4 + rest)))) by {
      assert SerialiseEntry(e) == SerialiseString(e.name) + n1 + n2 + n3 + n4;
    }
    StringRoundTrip(e.name, n1 + (n2 + (n3 + (n4 + rest))));
    NumberSerialisation.NumberRoundTrip(e.length, n2 + (n3 + (n4 + rest)));
    NumberSerialisation.NumberRoundTrip(e.offset, n3 + (n4 + rest));
    NumberSerialisation.NumberRoundTrip(e.basesperline, n4 + rest);
    NumberSerialisation.NumberRoundTrip(e.bytesperline, rest);
  }

  /** A default-constructed entry serialises to 40 bytes (an empty name's
      length and four zeros) and reads back as the default entry, leaving
      what follows. */
  lemma DefaultEntryRoundTrip(rest: seq<byte>)
    ensures |SerialiseEntry(DefaultEntry())| == 40
    ensures forall i :: 0 <= i < 40 ==> SerialiseEntry(DefaultEntry())[i] == 0
    ensures DeserialiseEntry(SerialiseEntry(DefaultEntry()) + rest) == Ok(Decoded(DefaultEntry(), rest))
  {
    var z := NumberSerialisation.SerialiseNumber(0);
    assert z == [0, 0, 0, 0, 0, 0, 0, 0];
    assert SerialiseEntry(DefaultEntry()) == z + z + z + z + z;
    EntryRoundTrip(DefaultEntry(), rest);
  }

  /** Every field a decoded entry holds fits its uint64_t again. */
  lemma DecodedFits(s: seq<byte>)
    requires DeserialiseEntry(s).Ok?
    ensures Fits(DeserialiseEntry(s).value.value)
  {
    var d := DeserialiseString(s).value;
    assert |d.value| < UINT64_LIMIT by {
      NumberSerialisation.ValueBound(s[..8]);
      Pow256Values();
    }
    forall t: seq<byte> | |t| >= 8
      ensures NumberSerialisation.Value(t[..8]) < UINT64_LIMIT
    {
      NumberSerialisation.ValueBound(t[..8]);
      Pow256Values();
    }
  }
}
