/**
 The packet buffer: a fixed array with a cursor, a length and a capacity, updated in place.

 Every read is tied to the function of `Wire` or `Names` that describes it, every write to the
 `Emission` it prints, on normal return and on every exception.
 */
module Buffer {
  import opened Wire
  import opened Names

  /** What a buffer holds: the whole array, the cursor, the length and the capacity. */
  datatype State = State(data: Bytes, pos: nat, len: nat, capacity: nat) {
    ghost predicate Valid() {
      |data| == MAX_BUFFER_SIZE && pos <= len <= MAX_BUFFER_SIZE && capacity <= MAX_BUFFER_SIZE
    }

    /** The bytes a reader may look at. */
    function Contents(): Bytes
      requires len <= |data|
    {
      data[..len]
    }

    /** How many bytes can still be written. */
    function Room(): nat {
      if pos >= capacity then 0 else capacity - pos
    }
  }

  function Min(a: int, b: int): int { if a <= b then a else b }

  function Max(a: int, b: int): int { if a >= b then a else b }

  /** `d` with `w` written over it at `p`. */
  function Splice(d: Bytes, p: nat, w: Bytes): (r: Bytes)
    requires p + |w| <= |d|
    ensures |r| == |d|
  {
    d[..p] + w + d[p + |w|..]
  }

  lemma SpliceTwice(d: Bytes, p: nat, v: Bytes, w: Bytes)
    requires p + |v| + |w| <= |d|
    ensures Splice(Splice(d, p, v), p + |v|, w) == Splice(d, p, v + w)
  {
  }

  /** The state after writing as much of `w` as there is room for. */
  function Put(s: State, w: Bytes): (t: State)
    requires s.Valid()
    ensures t.Valid() && t.capacity == s.capacity
  {
    var n := Min(|w|, s.Room());
    State(Splice(s.data, s.pos, w[..n]), s.pos + n, Max(s.len, s.pos + n), s.capacity)
  }

  /** The state after printing `e`. */
  function After(s: State, e: Emission): (t: State)
    requires s.Valid()
    ensures t.Valid() && t.capacity == s.capacity
  {
    Put(s, e.bytes)
  }

  /** How printing `e` ends: a full buffer stops it before an error of its own can. */
  function Verdict(s: State, e: Emission): Outcome {
    if |e.bytes| > s.Room() then Raise(LengthError)
    else if e.error.Some? then Raise(e.error.value)
    else Pass
  }

  lemma PutTwice(s: State, v: Bytes, w: Bytes)
    requires s.Valid()
    ensures if |v| <= s.Room() then Put(Put(s, v), w) == Put(s, v + w) && Put(s, v).Room() == s.Room() - |v|
      else Put(s, v) == Put(s, v + w)
  {
    hide Splice;
    if |v| <= s.Room() {
      var n := Min(|w|, s.Room() - |v|);
      assert v[..|v|] == v;
      assert (v + w)[..|v| + n] == v + w[..n];
      SpliceTwice(s.data, s.pos, v, w[..n]);
    } else {
      assert (v + w)[..s.Room()] == v[..s.Room()];
    }
  }

  lemma SliceOfPrefix(b: Bytes, n: nat, i: nat, j: nat)
    requires i <= j <= n <= |b|
    ensures b[..n][i..j] == b[i..j]
  {
  }

  lemma PutNextByte(s: State, w: Bytes, i: nat)
    requires s.Valid() && i < |w| && i <= s.Room()
    ensures if i < s.Room() then Put(Put(s, w[..i]), [w[i]]) == Put(s, w[..i + 1])
      else Put(Put(s, w[..i]), [w[i]]) == Put(s, w)
    ensures Put(s, w[..i]).Room() == s.Room() - i
  {
  }

  /** Printing `e` and then, if that returned, `f`, is printing `e.Then(f)`. */
  lemma PrintInSequence(s: State, e: Emission, f: Emission)
    requires s.Valid()
    ensures Verdict(s, e).Pass? ==>
      After(After(s, e), f) == After(s, e.Then(f)) && Verdict(After(s, e), f) == Verdict(s, e.Then(f))
    ensures Verdict(s, e).Raise? ==>
      After(s, e) == After(s, e.Then(f)) && Verdict(s, e) == Verdict(s, e.Then(f))
  {
    if e.error.None? {
      PutTwice(s, e.bytes, f.bytes);
    }
  }

  /** Printing that stops before its first byte changes nothing. */
  lemma PrintNothing(s: State, error: Option<Error>)
    requires s.Valid()
    ensures After(s, Emission([], error)) == s
    ensures Verdict(s, Emission([], error)) == if error.Some? then Raise(error.value) else Pass
  {
  }

  /** What a completed print leaves in a fresh buffer is exactly what was printed. */
  lemma FreshPrint(s: State, e: Emission)
    requires s.Valid() && s.pos == 0 && s.len == 0 && Verdict(s, e).Pass?
    ensures After(s, e).Contents() == e.bytes && After(s, e).len == After(s, e).pos == |e.bytes|
    ensures |e.bytes| <= s.capacity && e.error.None?
  {
  }

  class BytePacketBuffer {
    const buff: array<byte>
    var pos: nat
    var len: nat
    var maxCapacity: nat

    ghost predicate Valid()
      reads this
    {
      buff.Length == MAX_BUFFER_SIZE && pos <= len <= MAX_BUFFER_SIZE && maxCapacity <= MAX_BUFFER_SIZE
    }

    ghost function Now(): (s: State)
      requires Valid()
      reads this, buff
      ensures s.Valid()
    {
      State(buff[..], pos, len, maxCapacity)
    }

    ghost function Contents(): Bytes
      requires Valid()
      reads this, buff
    {
      buff[..len]
    }

    constructor (capacity: nat)
      ensures Valid() && fresh(buff)
      ensures pos == 0 && len == 0 && maxCapacity == Min(capacity, MAX_BUFFER_SIZE)
    {
      buff := new byte[MAX_BUFFER_SIZE](_ => 0);
      pos, len := 0, 0;
      maxCapacity := Min(capacity, MAX_BUFFER_SIZE);
    }

    method SetMaxCapacity(capacity: nat)
      requires Valid()
      modifies `maxCapacity
      ensures Valid() && maxCapacity == Min(capacity, MAX_BUFFER_SIZE)
    {
      maxCapacity := Min(capacity, MAX_BUFFER_SIZE);
    }

    method ReadU8() returns (r: Result<byte>)
      requires Valid()
      modifies `pos
      ensures Valid() && pos == Wire.ReadU8(Contents(), old(pos)).next
      ensures r == Wire.ReadU8(Contents(), old(pos)).ToResult()
      ensures if old(pos) < len then r == Success(buff[old(pos)]) && pos == old(pos) + 1
        else r == Failure(OutOfRange) && pos == old(pos)
    {
      if pos >= len { return Failure(OutOfRange); }
      r := Success(buff[pos]);
      pos := pos + 1;
    }

    method Get() returns (r: Result<byte>)
      requires Valid()
      ensures r == Wire.ReadU8(Contents(), pos).ToResult()
    {
      if pos >= len { return Failure(OutOfRange); }
      r := Success(buff[pos]);
    }

    method ReadU16() returns (r: Result<u16>)
      requires Valid()
      modifies `pos
      ensures Valid() && pos == Wire.ReadU16(Contents(), old(pos)).next
      ensures r == Wire.ReadU16(Contents(), old(pos)).ToResult()
    {
      var high: int :- ReadU8();
      var low: int :- ReadU8();
      r := Success(high * 0x100 + low);
    }

    method ReadU32() returns (r: Result<u32>)
      requires Valid()
      modifies `pos
      ensures Valid() && pos == Wire.ReadU32(Contents(), old(pos)).next
      ensures r == Wire.ReadU32(Contents(), old(pos)).ToResult()
    {
      var high: int :- ReadU16();
      var low: int :- ReadU16();
      r := Success(high * 0x1_0000 + low);
    }

    method Step(steps: nat) returns (r: Outcome)
      requires Valid()
      modifies `pos
      ensures Valid()
      ensures if steps <= len - old(pos) then r == Pass && pos == old(pos) + steps
        else r == Raise(OutOfRange) && pos == old(pos)
    {
      if steps > len - pos { return Raise(OutOfRange); }
      pos := pos + steps;
      r := Pass;
    }

    method Seek(next: nat) returns (r: Outcome)
      requires Valid()
      modifies `pos
      ensures Valid()
      ensures if next <= len then r == Pass && pos == next else r == Raise(OutOfRange) && pos == old(pos)
    {
      if next > len { return Raise(OutOfRange); }
      pos := next;
      r := Pass;
    }

    /** The inner loop of the reader: one more label, byte by byte. */
    method AppendLabel(name: Name, cursor: nat, length: nat) returns (longer: Name)
      requires Valid() && cursor + length <= len
      ensures longer == Glue(name, Contents()[cursor..cursor + length])
    {
      longer := if name != [] then name + [DOT] else [];
      ghost var start := longer;
      for i := 0 to length
        invariant longer == start + Contents()[cursor..cursor + i]
      {
        longer := longer + [buff[cursor + i]];
      }
    }

    /** Follows compression pointers; the loop stops by the measure (len - jumps, len - cursor). */
    method ReadQName() returns (r: Result<Name>)
      requires Valid()
      modifies `pos
      ensures Valid() && pos == Names.ReadQName(Contents(), old(pos)).next
      ensures r == Names.ReadQName(Contents(), old(pos)).ToResult()
    {
      hide Glue, Walk;
      ghost var b := Contents();
      ghost var outcome := Names.ReadQName(b, pos);
      ReadQNameCursor(b, pos);
      var name: Name := [];
      var cursor: nat := pos;
      var jumped := false;
      var jumps: nat := 0;
      while true
        invariant Valid() && b == Contents() && jumps <= len
        invariant Walk(b, cursor, pos, jumped, jumps, name) == outcome
        decreases len - jumps, len - cursor
      {
        WalkStops(b, cursor, pos, jumped, jumps, name);
        if cursor >= len { return Failure(OutOfRange); }
        var length := buff[cursor];
        if length >= 0xC0 {
          if cursor + 2 > len { return Failure(OutOfRange); }
          WalkPointer(b, cursor, pos, jumped, jumps, name);
          var tag: int, low: int := length, buff[cursor + 1];
          var offset: nat := tag % 0x40 * 0x100 + low;
          assert offset == Target(b, cursor);
          if !jumped { pos := cursor + 2; }
          cursor := offset;
          jumped := true;
          jumps := jumps + 1;
          if jumps > len { return Failure(RuntimeError); }
        } else if length == 0 {
          if !jumped { pos := cursor + 1; }
          break;
        } else {
          if length > MAX_LABEL { return Failure(RuntimeError); }
          if cursor + 1 + length <= len { WalkLabel(b, cursor, pos, jumped, jumps, name); }
          cursor := cursor + 1;
          if cursor + length > len { return Failure(OutOfRange); }
          name := AppendLabel(name, cursor, length);
          cursor := cursor + length;
          if |name| + 1 > 255 { return Failure(RuntimeError); }
          if !jumped { pos := cursor; }
        }
      }
      r := Success(if name == [] then [DOT] else name);
    }

    method ReadBytes(count: nat) returns (r: Result<Bytes>)
      requires Valid()
      modifies `pos
      ensures Valid() && pos == Wire.ReadBytes(Contents(), old(pos), count).next
      ensures r == Wire.ReadBytes(Contents(), old(pos), count).ToResult()
    {
      if count > len - pos { return Failure(OutOfRange); }
      r := Success(buff[pos..pos + count]);
      SliceOfPrefix(buff[..], len, pos, pos + count);
      pos := pos + count;
    }

    function Remaining(): (n: nat)
      requires Valid()
      reads this
      ensures pos + n == len
    {
      len - pos
    }

    method WriteU8(v: byte) returns (r: Outcome)
      requires Valid()
      modifies `pos, `len, buff
      ensures Valid() && Now() == After(old(Now()), Plain([v]))
      ensures r == Verdict(old(Now()), Plain([v]))
      ensures if old(pos) < maxCapacity then
          r == Pass && buff[..] == old(buff[..])[old(pos) := v] && pos == old(pos) + 1 && len == Max(old(len), pos)
        else
          r == Raise(LengthError) && buff[..] == old(buff[..]) && pos == old(pos) && len == old(len)
    {
      if pos >= maxCapacity {
        assert Put(Now(), [v]).data == buff[..];
        return Raise(LengthError);
      }
      ghost var s := Now();
      buff[pos] := v;
      pos := pos + 1;
      len := Max(len, pos);
      assert Now().data == Put(s, [v]).data;
      r := Pass;
    }

    method WriteU16(v: u16) returns (r: Outcome)
      requires Valid()
      modifies `pos, `len, buff
      ensures Valid() && Now() == After(old(Now()), Plain(BytesOfU16(v)))
      ensures r == Verdict(old(Now()), Plain(BytesOfU16(v)))
    {
      PrintInSequence(Now(), Plain([v / 0x100]), Plain([v % 0x100]));
      assert Plain([v / 0x100]).Then(Plain([v % 0x100])) == Plain(BytesOfU16(v));
      :- WriteU8(v / 0x100);
      :- WriteU8(v % 0x100);
      r := Pass;
    }

    method WriteU32(v: u32) returns (r: Outcome)
      requires Valid()
      modifies `pos, `len, buff
      ensures Valid() && Now() == After(old(Now()), Plain(BytesOfU32(v)))
      ensures r == Verdict(old(Now()), Plain(BytesOfU32(v)))
    {
      PrintInSequence(Now(), Plain(BytesOfU16(v / 0x1_0000)), Plain(BytesOfU16(v % 0x1_0000)));
      :- WriteU16(v / 0x1_0000);
      :- WriteU16(v % 0x1_0000);
      r := Pass;
    }

    /** The byte loop of the printers for labels, addresses, options and unknown data. */
    method WriteBytes(w: Bytes) returns (r: Outcome)
      requires Valid()
      modifies `pos, `len, buff
      ensures Valid() && Now() == After(old(Now()), Plain(w))
      ensures r == Verdict(old(Now()), Plain(w))
    {
      ghost var s := Now();
      assert Put(s, []).data == s.data;
      for i := 0 to |w|
        invariant Valid() && Now() == After(s, Plain(w[..i])) && Verdict(s, Plain(w[..i])) == Pass
      {
        PutNextByte(s, w, i);
        :- WriteU8(w[i]);
      }
      assert w[..|w|] == w;
      r := Pass;
    }

    method WriteLabel(text: Bytes) returns (r: Outcome)
      requires Valid() && |text| <= MAX_LABEL
      modifies `pos, `len, buff
      ensures Valid() && Now() == After(old(Now()), Plain([|text|] + text))
      ensures r == Verdict(old(Now()), Plain([|text|] + text))
    {
      PrintInSequence(Now(), Plain([|text|]), Plain(text));
      :- WriteU8(|text|);
      r := WriteBytes(text);
    }

    method WriteQName(domain: Name) returns (r: Outcome)
      requires Valid()
      modifies `pos, `len, buff
      ensures Valid() && Now() == After(old(Now()), EncodeName(domain))
      ensures r == Verdict(old(Now()), EncodeName(domain))
    {
      hide After, Verdict, FirstDot;
      if domain == [] || domain == [DOT] {
        r := WriteU8(0);
        return;
      }
      ghost var s := Now();
      var labelStart: nat := 0;
      ghost var rest := EncodeLabels(domain);
      assert domain[0..] == domain;
      while labelStart < |domain|
        invariant labelStart <= |domain| && Valid()
        invariant rest == EncodeLabels(domain[labelStart..])
        invariant After(Now(), rest) == After(s, EncodeName(domain))
        invariant Verdict(Now(), rest) == Verdict(s, EncodeName(domain))
      {
        var k := FirstDot(domain[labelStart..]);
        if k == 0 || k > MAX_LABEL {
          PrintNothing(Now(), Some(InvalidArgument));
          return Raise(InvalidArgument);
        }
        var text := domain[labelStart..][..k];
        ghost var tail := if labelStart + k == |domain| then Plain([0]) else EncodeLabels(domain[labelStart..][k + 1..]);
        assert rest == Plain([k] + text).Then(tail);
        PrintInSequence(Now(), Plain([k] + text), tail);
        :- WriteLabel(text);
        rest := tail;
        if labelStart + k == |domain| {
          break;
        }
        assert domain[labelStart..][k + 1..] == domain[labelStart + k + 1..];
        labelStart := labelStart + k + 1;
      }
      r := WriteU8(0);
    }

    method SetLength(length: nat) returns (r: Outcome)
      requires Valid()
      modifies `pos, `len
      ensures Valid()
      ensures if length <= MAX_BUFFER_SIZE then r == Pass && len == length && pos == 0
        else r == Raise(LengthError) && len == old(len) && pos == old(pos)
    {
      if length > buff.Length { return Raise(LengthError); }
      len := length;
      pos := 0;
      r := Pass;
    }
  }
}
