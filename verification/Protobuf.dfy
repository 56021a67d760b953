/** The protobuf wire format as the geo data readers see it: base-128 varints, and messages as
    series of varint and length-delimited fields. */
module Protobuf {
  import opened Basics

  datatype Field = VarintField(number: nat, value: nat) | BytesField(number: nat, content: Bytes)

  /** How reading a message ends: at its end, at a wire type it does not know (the readers stop
      there), or inside a varint (`_varint` raises). */
  datatype Ending = Finished | UnknownWire | Truncated

  function Varint(b: Bytes): (r: Option<(nat, Bytes)>)
    ensures r.Some? ==> |r.value.1| < |b|
  {
    if b == [] then None
    else if b[0] < 128 then Some((b[0] as int, b[1..]))
    else
      match Varint(b[1..])
      case None => None
      case Some((n, rest)) => Some((b[0] as int - 128 + 128 * n, rest))
  }

  function EncodeVarint(n: nat): Bytes {
    if n < 128 then [n] else [128 + n % 128] + EncodeVarint(n / 128)
  }

  /** Bytes that stand for a number: the shortest form, or one padded with continuation bytes that add nothing. */
  ghost predicate VarintBytes(b: Bytes, n: nat) {
    b != [] &&
    if |b| == 1 then b[0] < 128 && n == b[0] as int
    else b[0] >= 128 && n % 128 == b[0] as int - 128 && VarintBytes(b[1..], n / 128)
  }

  lemma {:induction false} VarintRoundTrip(b: Bytes, n: nat, tail: Bytes)
    requires VarintBytes(b, n)
    ensures Varint(b + tail) == Some((n, tail))
    decreases |b|
  {
    if |b| == 1 {
      assert (b + tail)[1..] == tail;
    } else {
      VarintRoundTrip(b[1..], n / 128, tail);
      assert (b + tail)[1..] == b[1..] + tail;
    }
  }

  lemma {:induction false} ShortestVarint(n: nat)
    ensures VarintBytes(EncodeVarint(n), n)
  {
    if n >= 128 {
      ShortestVarint(n / 128);
      var first: byte := 128 + n % 128;
      assert ([first] + EncodeVarint(n / 128))[1..] == EncodeVarint(n / 128);
    }
  }

  /** `_len_delim`: a slice past the end is cut short, and reading then stops. */
  function LenDelim(b: Bytes): (r: Option<(Bytes, Bytes)>)
    ensures r.Some? ==> |r.value.1| < |b|
  {
    match Varint(b)
    case None => None
    case Some((length, rest)) =>
      if length <= |rest| then Some((rest[..length], rest[length..])) else Some((rest, []))
  }

  datatype FieldRead = NoField(ending: Ending) | OneField(field: Field, rest: Bytes)

  function FirstField(b: Bytes): (r: FieldRead)
    requires b != []
    ensures r.OneField? ==> |r.rest| < |b|
  {
    match Varint(b)
    case None => NoField(Truncated)
    case Some((tag, rest)) =>
      if tag % 8 == 0 then
        (match Varint(rest) case None => NoField(Truncated) case Some((v, rest')) => OneField(VarintField(tag / 8, v), rest'))
      else if tag % 8 == 2 then
        (match LenDelim(rest) case None => NoField(Truncated) case Some((c, rest')) => OneField(BytesField(tag / 8, c), rest'))
      else NoField(UnknownWire)
  }

  /** All fields of a message, in order. */
  function Fields(b: Bytes): (seq<Field>, Ending)
    decreases |b|
  {
    if b == [] then ([], Finished)
    else
      match FirstField(b)
      case NoField(ending) => ([], ending)
      case OneField(field, rest) =>
        var (more, ending) := Fields(rest);
        ([field] + more, ending)
  }

  function EncodeField(f: Field): Bytes {
    match f
    case VarintField(number, value) => EncodeVarint(8 * number) + EncodeVarint(value)
    case BytesField(number, content) => EncodeVarint(8 * number + 2) + (EncodeVarint(|content|) + content)
  }

  function EncodeFields(fs: seq<Field>): Bytes {
    if fs == [] then [] else EncodeField(fs[0]) + EncodeFields(fs[1..])
  }

  /** Bytes that stand for a field, its numbers padded or not. */
  ghost predicate FieldBytes(b: Bytes, f: Field) {
    match f
    case VarintField(number, value) => exists x, y :: b == x + y && VarintBytes(x, 8 * number) && VarintBytes(y, value)
    case BytesField(number, content) =>
      exists x, y :: b == x + (y + content) && VarintBytes(x, 8 * number + 2) && VarintBytes(y, |content|)
  }

  /** Bytes that stand for a series of fields. */
  ghost predicate FieldsBytes(b: Bytes, fs: seq<Field>) {
    exists parts :: PartsOf(parts, b, fs)
  }

  ghost predicate PartsOf(parts: seq<Bytes>, b: Bytes, fs: seq<Field>) {
    |parts| == |fs| && b == Flatten(parts) && forall i :: 0 <= i < |fs| ==> FieldBytes(parts[i], fs[i])
  }

  lemma VarintNotEmpty(b: Bytes, n: nat)
    requires VarintBytes(b, n)
    ensures b != []
  {
  }

  lemma FieldRoundTrip(b: Bytes, f: Field, tail: Bytes)
    requires FieldBytes(b, f)
    ensures b + tail != [] && FirstField(b + tail) == OneField(f, tail)
  {
    hide Varint, VarintBytes;
    match f
    case VarintField(number, value) =>
      var x, y :| b == x + y && VarintBytes(x, 8 * number) && VarintBytes(y, value);
      VarintNotEmpty(x, 8 * number);
      VarintRoundTrip(x, 8 * number, y + tail);
      VarintRoundTrip(y, value, tail);
      assert b + tail == x + (y + tail);
    case BytesField(number, content) =>
      var x, y :| b == x + (y + content) && VarintBytes(x, 8 * number + 2) && VarintBytes(y, |content|);
      VarintNotEmpty(x, 8 * number + 2);
      VarintRoundTrip(x, 8 * number + 2, y + (content + tail));
      VarintRoundTrip(y, |content|, content + tail);
      assert b + tail == x + (y + (content + tail));
      assert (content + tail)[..|content|] == content && (content + tail)[|content|..] == tail;
  }

  lemma {:induction false} PartsRoundTrip(parts: seq<Bytes>, fs: seq<Field>)
    requires PartsOf(parts, Flatten(parts), fs)
    ensures Fields(Flatten(parts)) == (fs, Finished)
    decreases |fs|
  {
    hide FirstField, FieldBytes;
    if fs != [] {
      var rest := parts[1..];
      FieldRoundTrip(parts[0], fs[0], Flatten(rest));
      assert forall i :: 0 <= i < |rest| ==> rest[i] == parts[i + 1];
      PartsRoundTrip(rest, fs[1..]);
      assert [fs[0]] + fs[1..] == fs;
    }
  }

  /** Any series of fields, in any form of its numbers, reads back as exactly those fields. */
  lemma FieldsRoundTrip(b: Bytes, fs: seq<Field>)
    requires FieldsBytes(b, fs)
    ensures Fields(b) == (fs, Finished)
  {
    var parts :| PartsOf(parts, b, fs);
    PartsRoundTrip(parts, fs);
  }

  /** The encoder's own output is such a form. */
  lemma {:induction false} ShortestFields(fs: seq<Field>) returns (parts: seq<Bytes>)
    ensures PartsOf(parts, EncodeFields(fs), fs) && FieldsBytes(EncodeFields(fs), fs)
    decreases |fs|
  {
    hide EncodeField, FieldBytes;
    if fs == [] {
      parts := [];
    } else {
      var rest := ShortestFields(fs[1..]);
      parts := [EncodeField(fs[0])] + rest;
      ShortestField(fs[0]);
      assert parts[1..] == rest;
    }
  }

  lemma ShortestField(f: Field)
    ensures FieldBytes(EncodeField(f), f)
  {
    hide VarintBytes, EncodeVarint;
    match f
    case VarintField(number, value) =>
      ShortestVarint(8 * number);
      ShortestVarint(value);
    case BytesField(number, content) =>
      ShortestVarint(8 * number + 2);
      ShortestVarint(|content|);
  }

  // ---- fields of one kind --------------------------------------------------------------------

  function VarintIn(f: Field, number: nat): seq<nat> {
    if f.VarintField? && f.number == number then [f.value] else []
  }

  /** The values of the varint fields with a given number, in order. */
  function Varints(fs: seq<Field>, number: nat): seq<nat> {
    if fs == [] then [] else VarintIn(fs[0], number) + Varints(fs[1..], number)
  }

  lemma {:induction false} VarintsSnoc(fs: seq<Field>, f: Field, number: nat)
    ensures Varints(fs + [f], number) == Varints(fs, number) + VarintIn(f, number)
  {
    hide VarintIn;
    if fs == [] {
      assert fs + [f] == [f] && Varints([f][1..], number) == [];
    } else {
      VarintsSnoc(fs[1..], f, number);
      assert (fs + [f])[1..] == fs[1..] + [f];
      assert VarintIn(fs[0], number) + (Varints(fs[1..], number) + VarintIn(f, number))
          == (VarintIn(fs[0], number) + Varints(fs[1..], number)) + VarintIn(f, number);
    }
  }

  function ContentIn(f: Field, number: nat): seq<Bytes> {
    if f.BytesField? && f.number == number then [f.content] else []
  }

  /** The contents of the length-delimited fields with a given number, in order. */
  function Contents(fs: seq<Field>, number: nat): seq<Bytes> {
    if fs == [] then [] else ContentIn(fs[0], number) + Contents(fs[1..], number)
  }

  lemma {:induction false} ContentsAppend(a: seq<Field>, b: seq<Field>, number: nat)
    ensures Contents(a + b, number) == Contents(a, number) + Contents(b, number)
  {
    hide Contents, ContentIn;
    if a == [] {
      ContentsNone(number);
      assert a + b == b && [] + Contents(b, number) == Contents(b, number);
    } else {
      var rest := a[1..];
      ContentsAppend(rest, b, number);
      ContentsCons(a[0], rest, number);
      ContentsCons(a[0], rest + b, number);
      Assoc([a[0]], rest, b);
      Assoc(ContentIn(a[0], number), Contents(rest, number), Contents(b, number));
      assert a == [a[0]] + rest;
    }
  }

  lemma ContentsNone(number: nat)
    ensures Contents([], number) == []
  {
  }

  lemma ContentsCons(f: Field, rest: seq<Field>, number: nat)
    ensures Contents([f] + rest, number) == ContentIn(f, number) + Contents(rest, number)
  {
    assert ([f] + rest)[1..] == rest;
  }

  lemma ContentsSnoc(fs: seq<Field>, f: Field, number: nat)
    ensures Contents(fs + [f], number) == Contents(fs, number) + ContentIn(f, number)
  {
    hide ContentIn, Contents;
    ContentsAppend(fs, [f], number);
    ContentsCons(f, [], number);
    ContentsNone(number);
    assert [f] + [] == [f] && ContentIn(f, number) + [] == ContentIn(f, number);
  }

  function Last<T>(s: seq<T>, default: T): T {
    if s == [] then default else s[|s| - 1]
  }

  // ---- the readers ---------------------------------------------------------------------------

  /** `_varint`: the value and the position after it; None where it raises. */
  method ReadVarint(mv: Bytes, start: nat) returns (r: Option<(nat, nat)>)
    requires start <= |mv|
    ensures r.None? <==> Varint(mv[start..]).None?
    ensures r.Some? ==> start < r.value.1 <= |mv| && Varint(mv[start..]) == Some((r.value.0, mv[r.value.1..]))
  {
    var n: nat, weight: nat, pos := 0, 1, start;
    ghost var whole := Varint(mv[start..]);
    while pos < |mv|
      invariant start <= pos <= |mv|
      invariant whole.None? <==> Varint(mv[pos..]).None?
      invariant whole.Some? ==>
        Varint(mv[pos..]).Some?
        && whole == Some((n + weight * Varint(mv[pos..]).value.0, Varint(mv[pos..]).value.1))
    {
      var b := mv[pos] as int;
      assert mv[pos..][0] == mv[pos] && mv[pos..][1..] == mv[pos + 1..];
      ghost var rest := Varint(mv[pos + 1..]);
      pos := pos + 1;
      if b < 128 {
        return Some((n + weight * b, pos));
      }
      if rest.Some? {
        Shift(weight, b - 128, rest.value.0);
      }
      n := n + weight * (b - 128);
      weight := weight * 128;
    }
    assert mv[pos..] == [];
    return None;
  }

  lemma Shift(weight: nat, low: nat, high: nat)
    ensures weight * (low + 128 * high) == weight * low + (weight * 128) * high
  {
    assert weight * (low + 128 * high) == weight * low + weight * (128 * high);
    assert weight * (128 * high) == (weight * 128) * high;
  }

  /** The field at a position, by its tag. A length reaching past the end leaves the position at the end,
      where the source's lies beyond it: either way the reader's loop is over. */
  method ReadField(mv: Bytes, start: nat) returns (r: FieldRead, pos: nat)
    requires start < |mv|
    ensures r == FirstField(mv[start..])
    ensures r.OneField? ==> start < pos <= |mv| && r.rest == mv[pos..]
  {
    hide Varint;
    pos := start;
    var tag := ReadVarint(mv, start);
    if tag.None? {
      return NoField(Truncated), pos;
    }
    var (t, p) := tag.value;
    if t % 8 == 0 {
      var v := ReadVarint(mv, p);
      if v.None? {
        return NoField(Truncated), pos;
      }
      pos := v.value.1;
      return OneField(VarintField(t / 8, v.value.0), mv[pos..]), pos;
    } else if t % 8 == 2 {
      var l := ReadVarint(mv, p);
      if l.None? {
        return NoField(Truncated), pos;
      }
      var (length, q) := l.value;
      if q + length <= |mv| {
        pos := q + length;
        assert mv[q..][..length] == mv[q..q + length] && mv[q..][length..] == mv[pos..];
        return OneField(BytesField(t / 8, mv[q..q + length]), mv[pos..]), pos;
      }
      pos := |mv|;
      assert mv[pos..] == [];
      return OneField(BytesField(t / 8, mv[q..]), []), pos;
    } else {
      return NoField(UnknownWire), pos;
    }
  }
}
