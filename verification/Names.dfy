/**
 Domain names on the wire (sections 3.1 and 4.1.4 of RFC 1035): the reader that follows
 compression pointers, the printer that never compresses, and what the two mean.
 */
module Names {
  import opened Wire

  type Name = Bytes

  const DOT: byte := 46
  const MAX_LABEL: nat := 63
  const MAX_NAME: nat := 254

  // ----- Reading: the loop of the original, as a function -----

  function Target(b: Bytes, c: nat): nat
    requires c + 2 <= |b|
  {
    var tag: int, low: int := b[c], b[c + 1];
    tag % 0x40 * 0x100 + low
  }

  /** The arithmetic above is the masking and shifting of the original. */
  lemma TargetIsBits(tag: bv8, low: bv8)
    ensures tag & 0xC0 == 0xC0 <==> tag as int >= 0xC0
    ensures tag & 0xC0 != 0 <==> tag as int > MAX_LABEL
    ensures ((((tag & 0x3F) as bv16) << 8) | (low as bv16)) as int == Target([tag as int, low as int], 0)
  {
  }

  /** The name so far, with one more label. */
  function Glue(name: Name, text: Bytes): Name {
    (if name == [] then [] else name + [DOT]) + text
  }

  /** One run of the reading loop from `cursor`: `pos` is the resume position so far, `jumps`
      the pointers followed so far, `name` the text collected so far.  The two top bits of a
      length byte select a pointer (11), a label (00) or an error. */
  function Walk(b: Bytes, cursor: nat, pos: nat, jumped: bool, jumps: nat, name: Name): Parsed<Name>
    requires jumps <= |b|
    decreases |b| - jumps, |b| - cursor
  {
    if cursor >= |b| then
      Fail(OutOfRange, pos)
    else if b[cursor] >= 0xC0 then
      if cursor + 2 > |b| then
        Fail(OutOfRange, pos)
      else
        var pos' := if jumped then pos else cursor + 2;
        if jumps + 1 > |b| then
          Fail(RuntimeError, pos')
        else
          Walk(b, Target(b, cursor), pos', true, jumps + 1, name)
    else if b[cursor] == 0 then
      Ok(if name == [] then [DOT] else name, if jumped then pos else cursor + 1)
    else if b[cursor] > MAX_LABEL then
      Fail(RuntimeError, pos)
    else
      var next := cursor + 1 + b[cursor];
      if next > |b| then
        Fail(OutOfRange, pos)
      else
        var name' := Glue(name, b[cursor + 1..next]);
        if |name'| > MAX_NAME then
          Fail(RuntimeError, pos)
        else
          Walk(b, next, if jumped then pos else next, jumped, jumps, name')
  }

  /** The branches of one run of the loop. */
  lemma WalkPointer(b: Bytes, c: nat, pos: nat, jumped: bool, jumps: nat, name: Name)
    requires jumps <= |b| && c + 2 <= |b| && b[c] >= 0xC0
    ensures var pos' := if jumped then pos else c + 2;
      Walk(b, c, pos, jumped, jumps, name)
        == if jumps + 1 > |b| then Fail(RuntimeError, pos') else Walk(b, Target(b, c), pos', true, jumps + 1, name)
  {
  }

  lemma WalkLabel(b: Bytes, c: nat, pos: nat, jumped: bool, jumps: nat, name: Name)
    requires jumps <= |b| && c < |b| && 0 < b[c] <= MAX_LABEL && c + 1 + b[c] <= |b|
    ensures var next := c + 1 + b[c];
      var name' := Glue(name, b[c + 1..next]);
      Walk(b, c, pos, jumped, jumps, name)
        == if |name'| > MAX_NAME then Fail(RuntimeError, pos)
           else Walk(b, next, if jumped then pos else next, jumped, jumps, name')
  {
  }

  lemma WalkStops(b: Bytes, c: nat, pos: nat, jumped: bool, jumps: nat, name: Name)
    requires jumps <= |b|
    ensures var w := Walk(b, c, pos, jumped, jumps, name);
      && (c >= |b| ==> w == Fail(OutOfRange, pos))
      && (c < |b| && b[c] >= 0xC0 && c + 2 > |b| ==> w == Fail(OutOfRange, pos))
      && (c < |b| && b[c] == 0 ==> w == Ok(if name == [] then [DOT] else name, if jumped then pos else c + 1))
      && (c < |b| && MAX_LABEL < b[c] < 0xC0 ==> w == Fail(RuntimeError, pos))
      && (c < |b| && 0 < b[c] <= MAX_LABEL && c + 1 + b[c] > |b| ==> w == Fail(OutOfRange, pos))
  {
  }

  function ReadQName(b: Bytes, p: nat): Parsed<Name> {
    Walk(b, p, p, false, 0, [])
  }

  // ----- Reading: the meaning, without a jump budget -----

  /** A finite chain of labels and pointers that ends at a zero byte. */
  datatype Chain = End | Label(rest: Chain) | Pointer(rest: Chain)

  /** The bytes spell out chain `d` from position `c`. */
  ghost predicate Follows(b: Bytes, c: nat, d: Chain)
    decreases d
  {
    c < |b| &&
    match d
    case End => b[c] == 0
    case Label(rest) => 0 < b[c] <= MAX_LABEL && c + 1 + b[c] <= |b| && Follows(b, c + 1 + b[c], rest)
    case Pointer(rest) => 0xC0 <= b[c] && c + 2 <= |b| && Follows(b, Target(b, c), rest)
  }

  ghost function Labels(b: Bytes, c: nat, d: Chain): (ls: seq<Bytes>)
    requires Follows(b, c, d)
    ensures forall i :: 0 <= i < |ls| ==> 0 < |ls[i]|
    decreases d
  {
    match d
    case End => []
    case Label(rest) => [b[c + 1..c + 1 + b[c]]] + Labels(b, c + 1 + b[c], rest)
    case Pointer(rest) => Labels(b, Target(b, c), rest)
  }

  /** Labels separated by dots. */
  ghost function Join(ls: seq<Bytes>): Name
    decreases |ls|
  {
    if ls == [] then []
    else if |ls| == 1 then ls[0]
    else ls[0] + [DOT] + Join(ls[1..])
  }

  ghost function Text(ls: seq<Bytes>): Name {
    if ls == [] then [DOT] else Join(ls)
  }

  /** The position just past the first pointer or the terminating zero. */
  ghost function Resume(b: Bytes, c: nat, d: Chain): nat
    requires Follows(b, c, d)
    decreases d
  {
    match d
    case End => c + 1
    case Label(rest) => Resume(b, c + 1 + b[c], rest)
    case Pointer(_) => c + 2
  }

  ghost function Pointers(d: Chain): nat {
    match d
    case End => 0
    case Label(rest) => Pointers(rest)
    case Pointer(rest) => 1 + Pointers(rest)
  }

  ghost function Size(d: Chain): nat {
    match d
    case End => 0
    case Label(rest) => 1 + Size(rest)
    case Pointer(rest) => 1 + Size(rest)
  }

  /** The positions of the pointers a chain goes through. */
  ghost function Spots(b: Bytes, c: nat, d: Chain): set<nat>
    requires Follows(b, c, d)
    decreases d
  {
    match d
    case End => {}
    case Label(rest) => Spots(b, c + 1 + b[c], rest)
    case Pointer(rest) => {c} + Spots(b, Target(b, c), rest)
  }

  /** The next cursor depends only on the current one, so a position starts at most one chain. */
  lemma {:induction false} ChainUnique(b: Bytes, c: nat, d: Chain, e: Chain)
    requires Follows(b, c, d) && Follows(b, c, e)
    ensures d == e
    decreases d
  {
    match d
    case End =>
    case Label(rest) => ChainUnique(b, c + 1 + b[c], rest, e.rest);
    case Pointer(rest) => ChainUnique(b, Target(b, c), rest, e.rest);
  }

  lemma {:induction false} SpotStartsSubchain(b: Bytes, c: nat, d: Chain, q: nat) returns (e: Chain)
    requires Follows(b, c, d) && q in Spots(b, c, d)
    ensures Follows(b, q, e) && Size(e) <= Size(d)
    decreases d
  {
    match d
    case End =>
      assert false;
    case Label(rest) =>
      e := SpotStartsSubchain(b, c + 1 + b[c], rest, q);
    case Pointer(rest) =>
      if q == c {
        e := d;
      } else {
        e := SpotStartsSubchain(b, Target(b, c), rest, q);
      }
  }

  /** A finite chain goes through every pointer at most once. */
  lemma {:induction false} SpotsCountPointers(b: Bytes, c: nat, d: Chain)
    requires Follows(b, c, d)
    ensures |Spots(b, c, d)| == Pointers(d)
    ensures forall q :: q in Spots(b, c, d) ==> q + 2 <= |b|
    decreases d
  {
    match d
    case End =>
    case Label(rest) => SpotsCountPointers(b, c + 1 + b[c], rest);
    case Pointer(rest) =>
      SpotsCountPointers(b, Target(b, c), rest);
      if c in Spots(b, Target(b, c), rest) {
        var e := SpotStartsSubchain(b, Target(b, c), rest, c);
        ChainUnique(b, c, d, e);
        assert false;
      }
  }

  lemma {:induction false} BoundedSetIsSmall(s: set<nat>, n: nat)
    requires forall q :: q in s ==> q < n
    ensures |s| <= n
  {
    if n == 0 {
      assert s == {};
    } else {
      BoundedSetIsSmall(s - {n - 1}, n - 1);
      assert |s| <= |s - {n - 1}| + 1;
    }
  }

  /** The jump budget never cuts a finite chain short: it follows fewer pointers than there are bytes. */
  lemma FewerPointersThanBytes(b: Bytes, c: nat, d: Chain)
    requires Follows(b, c, d)
    ensures Pointers(d) < |b|
  {
    SpotsCountPointers(b, c, d);
    BoundedSetIsSmall(Spots(b, c, d), |b| - 1);
  }

  // ----- The reader is sound and complete for that meaning -----

  ghost function GlueAll(name: Name, ls: seq<Bytes>): Name
    decreases |ls|
  {
    if ls == [] then name else GlueAll(Glue(name, ls[0]), ls[1..])
  }

  lemma {:induction false} GlueAllIsJoin(name: Name, ls: seq<Bytes>)
    requires forall i :: 0 <= i < |ls| ==> 0 < |ls[i]|
    ensures GlueAll(name, ls) == if ls == [] then name else Glue(name, Join(ls))
    decreases |ls|
  {
    if ls != [] {
      GlueAllIsJoin(Glue(name, ls[0]), ls[1..]);
      if |ls| > 1 {
        assert Glue(Glue(name, ls[0]), Join(ls[1..])) == Glue(name, Join(ls));
      }
    }
  }

  lemma {:induction false} GlueAllGrows(name: Name, ls: seq<Bytes>)
    ensures |name| <= |GlueAll(name, ls)|
    decreases |ls|
  {
    if ls != [] {
      GlueAllGrows(Glue(name, ls[0]), ls[1..]);
    }
  }

  lemma {:induction false} WalkFindsChain(b: Bytes, c: nat, pos: nat, jumped: bool, jumps: nat, name: Name) returns (d: Chain)
    requires jumps <= |b| && |name| <= MAX_NAME
    requires Walk(b, c, pos, jumped, jumps, name).Ok?
    ensures Follows(b, c, d)
    ensures |GlueAll(name, Labels(b, c, d))| <= MAX_NAME
    decreases |b| - jumps, |b| - c
  {
    if b[c] >= 0xC0 {
      var rest := WalkFindsChain(b, Target(b, c), if jumped then pos else c + 2, true, jumps + 1, name);
      d := Pointer(rest);
    } else if b[c] == 0 {
      d := End;
    } else {
      var next := c + 1 + b[c];
      var rest := WalkFindsChain(b, next, if jumped then pos else next, jumped, jumps, Glue(name, b[c + 1..next]));
      d := Label(rest);
      assert Labels(b, c, d)[1..] == Labels(b, next, rest);
    }
  }

  lemma {:induction false} ChainIsWalked(b: Bytes, c: nat, pos: nat, jumped: bool, jumps: nat, name: Name, d: Chain)
    requires Follows(b, c, d)
    requires jumps + Pointers(d) <= |b|
    requires |GlueAll(name, Labels(b, c, d))| <= MAX_NAME
    ensures Walk(b, c, pos, jumped, jumps, name) ==
      var text := GlueAll(name, Labels(b, c, d));
      Ok(if text == [] then [DOT] else text, if jumped then pos else Resume(b, c, d))
    decreases d
  {
    match d
    case End =>
    case Label(rest) =>
      var next := c + 1 + b[c];
      var text := b[c + 1..next];
      assert Labels(b, c, d) == [text] + Labels(b, next, rest);
      assert Labels(b, c, d)[1..] == Labels(b, next, rest);
      GlueAllGrows(Glue(name, text), Labels(b, next, rest));
      ChainIsWalked(b, next, if jumped then pos else next, jumped, jumps, Glue(name, text), rest);
    case Pointer(rest) =>
      ChainIsWalked(b, Target(b, c), if jumped then pos else c + 2, true, jumps + 1, name, rest);
  }

  ghost predicate Denotes(b: Bytes, p: nat, d: Chain) {
    Follows(b, p, d) && |Join(Labels(b, p, d))| <= MAX_NAME
  }

  /** The reader returns a name exactly when a finite chain leads from `p` to a zero byte and
      spells at most 254 characters; the name is the text of that chain, and the cursor is left
      just past the first pointer or the terminating zero. */
  lemma ReadQNameSoundAndComplete(b: Bytes, p: nat)
    ensures ReadQName(b, p).Ok? <==> exists d :: Denotes(b, p, d)
    ensures forall d :: Denotes(b, p, d) ==>
      ReadQName(b, p) == Ok(Text(Labels(b, p, d)), Resume(b, p, d))
  {
    if ReadQName(b, p).Ok? {
      var d := WalkFindsChain(b, p, p, false, 0, []);
      GlueAllIsJoin([], Labels(b, p, d));
      assert Denotes(b, p, d);
    }
    forall d | Denotes(b, p, d)
      ensures ReadQName(b, p) == Ok(Text(Labels(b, p, d)), Resume(b, p, d))
    {
      var ls := Labels(b, p, d);
      GlueAllIsJoin([], ls);
      assert Glue([], Join(ls)) == Join(ls);
      FewerPointersThanBytes(b, p, d);
      ChainIsWalked(b, p, p, false, 0, [], d);
      if ls != [] {
        assert |Join(ls)| >= |ls[0]|;
      }
    }
  }

  /** Where the cursor can end up, on success and on every exception. */
  lemma {:induction false} WalkCursor(b: Bytes, c: nat, pos: nat, jumped: bool, jumps: nat, name: Name)
    requires jumps <= |b|
    requires pos <= |b| && (!jumped ==> c == pos)
    requires |name| <= MAX_NAME
    ensures var r := Walk(b, c, pos, jumped, jumps, name);
      && pos <= r.next <= |b|
      && (r.Ok? ==> 0 < |r.value| <= MAX_NAME && (!jumped ==> pos < r.next))
    decreases |b| - jumps, |b| - c
  {
    if c < |b| {
      if b[c] >= 0xC0 {
        if c + 2 <= |b| && jumps + 1 <= |b| {
          WalkCursor(b, Target(b, c), if jumped then pos else c + 2, true, jumps + 1, name);
        }
      } else if 0 < b[c] <= MAX_LABEL {
        var next := c + 1 + b[c];
        if next <= |b| && |Glue(name, b[c + 1..next])| <= MAX_NAME {
          WalkCursor(b, next, if jumped then pos else next, jumped, jumps, Glue(name, b[c + 1..next]));
        }
      }
    }
  }

  lemma ReadQNameCursor(b: Bytes, p: nat)
    requires p <= |b|
    ensures p <= ReadQName(b, p).next <= |b|
    ensures ReadQName(b, p).Ok? ==> p < ReadQName(b, p).next && 0 < |ReadQName(b, p).value| <= MAX_NAME
  {
    WalkCursor(b, p, p, false, 0, []);
  }

  // ----- Printing -----

  function FirstDot(text: Bytes): (k: nat)
    ensures k <= |text|
    ensures k < |text| ==> text[k] == DOT
    ensures forall i :: 0 <= i < k ==> text[i] != DOT
  {
    if text == [] || text[0] == DOT then 0 else 1 + FirstDot(text[1..])
  }

  /** What the printing loop puts out for the rest of a name. */
  function EncodeLabels(rest: Bytes): Emission
    decreases |rest|
  {
    if rest == [] then Plain([0])
    else
      var k := FirstDot(rest);
      if k == 0 || k > MAX_LABEL then Emission([], Some(InvalidArgument))
      else
        var first := Plain([k] + rest[..k]);
        first.Then(if k == |rest| then Plain([0]) else EncodeLabels(rest[k + 1..]))
  }

  function EncodeName(name: Name): Emission {
    if name == [] || name == [DOT] then Plain([0]) else EncodeLabels(name)
  }

  /** The name without its trailing dot. */
  function Trim(text: Bytes): Bytes {
    if text != [] && text[|text| - 1] == DOT then text[..|text| - 1] else text
  }

  /** What a printed name reads back as. */
  function Canon(name: Name): Name {
    if name == [] || name == [DOT] then [DOT] else Trim(name)
  }

  /** The length computed ahead of printing. */
  function QNameWireLength(name: Name): Result<u16> {
    if name == [] || name == [DOT] then Success(1)
    else
      var length := |name| + if name[|name| - 1] == DOT then 1 else 2;
      if length > 0xFFFF then Failure(LengthError) else Success(length)
  }

  lemma {:induction false} EncodeLabelsLength(rest: Bytes)
    requires rest != []
    requires EncodeLabels(rest).error.None?
    ensures |EncodeLabels(rest).bytes| == |rest| + if rest[|rest| - 1] == DOT then 1 else 2
    decreases |rest|
  {
    var k := FirstDot(rest);
    if k + 1 < |rest| {
      EncodeLabelsLength(rest[k + 1..]);
    }
  }

  /** The length computed in advance is the number of bytes printed. */
  lemma WireLengthIsExact(name: Name)
    requires EncodeName(name).error.None?
    ensures QNameWireLength(name) ==
      if |EncodeName(name).bytes| > 0xFFFF then Failure(LengthError) else Success(|EncodeName(name).bytes|)
  {
    if name != [] && name != [DOT] {
      EncodeLabelsLength(name);
    }
  }

  /** One step of the reader over one printed label. */
  lemma PrintedLabelStep(b: Bytes, c: nat, name: Name, text: Bytes)
    requires 0 < |text| <= MAX_LABEL
    requires At(b, c, [|text|] + text)
    requires |Glue(name, text)| <= MAX_NAME
    ensures var next := c + 1 + |text|;
      Walk(b, c, c, false, 0, name) == Walk(b, next, next, false, 0, Glue(name, text))
  {
    AtSplit(b, c, [|text|], text);
    ReadU8At(b, c, |text|);
  }

  lemma PrintedEndStep(b: Bytes, c: nat, name: Name)
    requires At(b, c, [0])
    ensures Walk(b, c, c, false, 0, name) == Ok(if name == [] then [DOT] else name, c + 1)
  {
  }

  lemma TrimAfterDot(l: Bytes, t: Bytes)
    requires t != []
    ensures Trim(l + [DOT] + t) == l + [DOT] + Trim(t)
  {
  }

  lemma GlueTwice(name: Name, l: Bytes, t: Bytes)
    requires l != []
    ensures Glue(Glue(name, l), t) == Glue(name, l + [DOT] + t)
  {
  }

  /** The three ways the printing loop goes on after a label `l`: no more text, a last dot, more labels. */
  lemma EncodeLabelsStep(rest: Bytes) returns (l: Bytes, t: Bytes, w: Bytes)
    requires rest != [] && EncodeLabels(rest).error.None?
    ensures 0 < |l| <= MAX_LABEL && EncodeLabels(rest).bytes == ([|l|] + l) + w
    ensures if t == [] then w == [0] && Trim(rest) == l
      else rest == l + [DOT] + t && EncodeLabels(t) == Plain(w)
  {
    var k := FirstDot(rest);
    l := rest[..k];
    t := if k == |rest| then [] else rest[k + 1..];
    if k == |rest| {
      assert rest[k - 1] != DOT;
      w := [0];
    } else {
      w := EncodeLabels(t).bytes;
      assert rest == l + [DOT] + t;
    }
  }

  lemma {:induction false} PrintedLabelsWalk(b: Bytes, c: nat, name: Name, rest: Bytes)
    requires rest != [] && EncodeLabels(rest).error.None?
    requires At(b, c, EncodeLabels(rest).bytes)
    requires |Glue(name, Trim(rest))| <= MAX_NAME
    ensures Walk(b, c, c, false, 0, name) == Ok(Glue(name, Trim(rest)), c + |EncodeLabels(rest).bytes|)
    decreases |rest|
  {
    hide Walk, EncodeLabels, Trim, At;
    var l, t, w := EncodeLabelsStep(rest);
    AtSplit(b, c, [|l|] + l, w);
    if t == [] {
      PrintedLabelStep(b, c, name, l);
      PrintedEndStep(b, c + 1 + |l|, Glue(name, l));
    } else {
      TrimAfterDot(l, t);
      GlueTwice(name, l, Trim(t));
      PrintedLabelStep(b, c, name, l);
      PrintedLabelsWalk(b, c + 1 + |l|, Glue(name, l), t);
    }
  }

  /** A printed name reads back, up to `Canon`, wherever it stands and whatever surrounds it. */
  lemma PrintedNameReadsBack(b: Bytes, p: nat, name: Name)
    requires EncodeName(name).error.None?
    requires At(b, p, EncodeName(name).bytes)
    requires |Canon(name)| <= MAX_NAME
    ensures ReadQName(b, p) == Ok(Canon(name), p + |EncodeName(name).bytes|)
  {
    if name == [] || name == [DOT] {
      ReadU8At(b, p, 0);
    } else {
      assert Glue([], Trim(name)) == Canon(name);
      PrintedLabelsWalk(b, p, [], name);
    }
  }

  /** A printed name comes back as it was exactly if it is the root or has no dot at its end. */
  lemma NameSurvivesIff(b: Bytes, p: nat, name: Name)
    requires EncodeName(name).error.None? && At(b, p, EncodeName(name).bytes) && |Canon(name)| <= MAX_NAME
    ensures ReadQName(b, p).Ok?
    ensures ReadQName(b, p).value == name <==> name == [DOT] || (name != [] && name[|name| - 1] != DOT)
  {
    hide ReadQName;
    PrintedNameReadsBack(b, p, name);
  }

  /** One that does not, though it was read: a label may itself end in a dot. */
  lemma DotInLabelIsLost()
    ensures var name := [97, DOT]; ReadQName([2] + name + [0], 0) == Ok(name, 4) && EncodeName(name) == Plain([1, 97, 0])
  {
    var name := [97, DOT];
    var b := [2] + name + [0];
    WalkLabel(b, 0, 0, false, 0, []);
    assert Glue([], b[1..3]) == name;
    WalkStops(b, 3, 3, false, 0, name);
    EncodeLabelsOnce([97], []);
    assert [97] + [DOT] + [] == name;
  }

  /** Pointers may point forwards. */
  lemma ForwardPointerIsFollowed()
    ensures ReadQName([0xC0, 2, 1, 97, 0], 0) == Ok([97], 2)
  {
    var b: Bytes := [0xC0, 2, 1, 97, 0];
    WalkPointer(b, 0, 0, false, 0, []);
    WalkLabel(b, 2, 2, true, 1, []);
    assert Glue([], b[3..4]) == [97];
    WalkStops(b, 4, 2, true, 1, [97]);
  }

  // ----- Which names print, and as what -----

  ghost predicate GoodLabels(ls: seq<Bytes>) {
    forall i :: 0 <= i < |ls| ==> 0 < |ls[i]| <= MAX_LABEL && forall j :: 0 <= j < |ls[i]| ==> ls[i][j] != DOT
  }

  /** Labels as section 3.1 of RFC 1035 lays them out: a length byte before each, a zero at the end. */
  ghost function WireOf(ls: seq<Bytes>): Bytes
    requires GoodLabels(ls)
    decreases |ls|
  {
    if ls == [] then [0] else [|ls[0]|] + ls[0] + WireOf(ls[1..])
  }

  ghost predicate Dotted(name: Name, ls: seq<Bytes>) {
    ls != [] && GoodLabels(ls) && (name == Join(ls) || name == Join(ls) + [DOT])
  }

  lemma FirstDotAfter(l: Bytes, t: Bytes)
    requires forall j :: 0 <= j < |l| ==> l[j] != DOT
    ensures FirstDot(l) == |l| && FirstDot(l + [DOT] + t) == |l|
  {
    var u := l + [DOT] + t;
    assert u[|l|] == DOT;
    assert forall j :: 0 <= j < |l| ==> u[j] == l[j];
  }

  lemma EncodeLabelsOnce(l: Bytes, t: Bytes)
    requires 0 < |l| <= MAX_LABEL && forall j :: 0 <= j < |l| ==> l[j] != DOT
    ensures EncodeLabels(l) == Plain([|l|] + l + [0])
    ensures EncodeLabels(l + [DOT] + t) == Plain([|l|] + l).Then(EncodeLabels(t))
  {
    FirstDotAfter(l, t);
    assert l[..|l|] == l;
    assert (l + [DOT] + t)[..|l|] == l && (l + [DOT] + t)[|l| + 1..] == t;
  }

  lemma {:induction false} DottedNamePrints(name: Name, ls: seq<Bytes>)
    requires Dotted(name, ls)
    ensures EncodeLabels(name) == Plain(WireOf(ls)) && name != [] && name != [DOT]
    decreases |ls|
  {
    var l := ls[0];
    if |ls| == 1 {
      assert ls[1..] == [];
      EncodeLabelsOnce(l, []);
      assert l + [DOT] + [] == l + [DOT];
      assert [|l|] + l + [0] == [|l|] + l + WireOf(ls[1..]);
    } else {
      var t := name[|l| + 1..];
      assert name == l + [DOT] + t;
      assert t == Join(ls[1..]) || t == Join(ls[1..]) + [DOT];
      DottedNamePrints(t, ls[1..]);
      EncodeLabelsOnce(l, t);
    }
  }

  lemma DottedOnce(l: Bytes, rest: Bytes)
    requires GoodLabels([l]) && (rest == l || rest == l + [DOT])
    ensures Dotted(rest, [l])
  {
  }

  lemma DottedMore(l: Bytes, t: Bytes, more: seq<Bytes>)
    requires GoodLabels([l]) && Dotted(t, more)
    ensures Dotted(l + [DOT] + t, [l] + more)
  {
  }

  lemma {:induction false} PrintedNameIsDotted(rest: Bytes) returns (ls: seq<Bytes>)
    requires rest != [] && EncodeLabels(rest).error.None?
    ensures Dotted(rest, ls)
    decreases |rest|
  {
    hide Dotted, Join;
    var k := FirstDot(rest);
    var l := rest[..k];
    assert GoodLabels([l]);
    if k + 1 >= |rest| {
      ls := [l];
      DottedOnce(l, rest);
    } else {
      var t := rest[k + 1..];
      var more := PrintedNameIsDotted(t);
      ls := [l] + more;
      assert rest == l + [DOT] + t;
      DottedMore(l, t, more);
    }
  }

  /** The printer accepts the root and the dotted lists of labels of 1 to 63 bytes, with or
      without a last dot, and nothing else; and it prints the list's own wire form. */
  lemma PrintableIff(name: Name)
    ensures EncodeName(name).error.None? <==> name == [] || name == [DOT] || exists ls :: Dotted(name, ls)
    ensures forall ls :: Dotted(name, ls) ==> EncodeName(name) == Plain(WireOf(ls))
  {
    if name != [] && name != [DOT] && EncodeName(name).error.None? {
      var ls := PrintedNameIsDotted(name);
    }
    forall ls | Dotted(name, ls)
      ensures EncodeName(name) == Plain(WireOf(ls))
    {
      DottedNamePrints(name, ls);
    }
  }

  // ----- The 255-octet limit (section 2.3.4 of RFC 1035) -----

  /** How many octets labels take on the wire: a length byte before each, and a zero. */
  ghost function WireSize(ls: seq<Bytes>): nat
    decreases |ls|
  {
    if ls == [] then 1 else 1 + |ls[0]| + WireSize(ls[1..])
  }

  lemma {:induction false} JoinedSize(ls: seq<Bytes>)
    requires ls != []
    ensures WireSize(ls) == |Join(ls)| + 2
    decreases |ls|
  {
    if |ls| == 1 {
      assert ls[1..] == [];
    } else {
      JoinedSize(ls[1..]);
    }
  }

  /** The reader's check on characters keeps names within 256 octets, not 255: the labels of an
      accepted name take 255 octets or fewer exactly if the name has at most 253 characters. */
  lemma ReadNameKeepsLimitIff(b: Bytes, p: nat, d: Chain)
    requires Denotes(b, p, d)
    ensures ReadQName(b, p).Ok? && WireSize(Labels(b, p, d)) <= 256
    ensures WireSize(Labels(b, p, d)) <= 255 <==> |ReadQName(b, p).value| <= 253
  {
    ReadQNameSoundAndComplete(b, p);
    if Labels(b, p, d) != [] {
      JoinedSize(Labels(b, p, d));
    }
  }

  /** What is printed of a name that was read keeps to 255 octets exactly if it has at most 253
      characters, a trailing dot not counted. */
  lemma ReprintedNameKeepsLimitIff(b: Bytes, p: nat)
    requires p <= |b| && ReadQName(b, p).Ok? && EncodeName(ReadQName(b, p).value).error.None?
    ensures var name := ReadQName(b, p).value;
      |EncodeName(name).bytes| <= 255 <==> |name| <= 253 || name[|name| - 1] == DOT
  {
    ReadQNameCursor(b, p);
    var name := ReadQName(b, p).value;
    if name != [DOT] {
      EncodeLabelsLength(name);
    }
  }

  function LabelOfSize(n: byte): (l: Bytes)
    ensures |l| == n && forall i :: 0 <= i < n ==> l[i] == 97
  {
    seq(n, _ => 97)
  }

  /** A name beyond the limit: labels of 63, 63, 63 and 62 bytes print into 256 octets, and the
      reader accepts those. */
  lemma OverlongNameIsAccepted() returns (name: Name)
    ensures |name| == 254 && EncodeName(name).error.None? && |EncodeName(name).bytes| == 256
    ensures ReadQName(EncodeName(name).bytes, 0) == Ok(name, 256)
  {
    hide ReadQName, EncodeLabels;
    var l, m := LabelOfSize(63), LabelOfSize(62);
    assert Dotted(m, [m]) by { DottedOnce(m, m); }
    DottedMore(l, m, [m]);
    var three := l + [DOT] + m;
    DottedMore(l, three, [l] + [m]);
    var four := l + [DOT] + three;
    DottedMore(l, four, [l] + ([l] + [m]));
    name := l + [DOT] + four;
    DottedNamePrints(name, [l] + ([l] + ([l] + [m])));
    EncodeLabelsLength(name);
    var w := EncodeName(name).bytes;
    assert w[0..|w|] == w;
    assert name[|name| - 1] == m[61];
    PrintedNameReadsBack(w, 0, name);
  }
}
