/** The walk over PCI Express extended capabilities that looks for the device serial number (sections
    7.6.3 and 7.9.3 of the PCI Express Base Specification 5.0). */
module CapabilityWalk {
  import opened Common

  type Byte = b: int | 0 <= b < 256

  const EXT_CAP_START: nat := 0x100
  const DSN_CAPABILITY: nat := 0x0003

  /** The code scales bits 31:20 of a header by this; the specification makes them a byte offset. */
  const CODE_SCALE: nat := 4

  function LittleEndian(bytes: seq<Byte>): nat {
    if bytes == [] then 0
    else
      var low: nat := bytes[0];
      low + 0x100 * LittleEndian(bytes[1..])
  }

  function Header(data: seq<Byte>, offset: nat): nat
    requires offset + 4 <= |data|
  {
    LittleEndian(data[offset..offset + 4])
  }

  function CapId(header: nat): nat { header % 0x1_0000 }

  function NextPtr(header: nat): (p: nat)
    ensures p <= 0xFFF
  {
    header / 0x10_0000 % 0x1000
  }

  /** What the walk finds at an offset: a serial number, the offset to go to, or the end. */
  datatype Visit = Serial | Continue(next: nat) | End

  function VisitAt(data: seq<Byte>, scale: nat, offset: nat): Visit {
    if offset == 0 || offset + 4 > |data| then End
    else
      var header := Header(data, offset);
      if header == 0 then End
      else if CapId(header) == DSN_CAPABILITY then Serial
      else if NextPtr(header) == 0 then End
      else Continue(NextPtr(header) * scale)
  }

  /* ----- chains, for any way of going from one offset to the next ----- */

  type Visitor = nat -> Visit

  function Walk(data: seq<Byte>, scale: nat): Visitor {
    (offset: nat) => VisitAt(data, scale, offset)
  }

  /** The offset after `n` steps, if the chain is that long. */
  ghost function Chain(visit: Visitor, n: nat): Option<nat> {
    if n == 0 then Some(EXT_CAP_START)
    else
      var before := Chain(visit, n - 1);
      if before.Some? && visit(before.value).Continue? then Some(visit(before.value).next) else None
  }

  /** The chain ends after `n` steps, on a serial number or without one. */
  ghost predicate EndsAt(visit: Visitor, n: nat) {
    Chain(visit, n).Some? && !visit(Chain(visit, n).value).Continue?
  }

  ghost predicate Endless(visit: Visitor) {
    forall n: nat :: Chain(visit, n).Some?
  }

  ghost predicate Revisits(visit: Visitor) {
    exists i: nat, j: nat :: i < j && Chain(visit, j).Some? && Chain(visit, i) == Chain(visit, j)
  }

  lemma {:induction false} ChainPrefix(visit: Visitor, i: nat, j: nat)
    requires i <= j && Chain(visit, j).Some?
    ensures Chain(visit, i).Some?
    ensures i < j ==> visit(Chain(visit, i).value).Continue?
    decreases j
  {
    if i == j {
    } else {
      ChainPrefix(visit, i, j - 1);
    }
  }

  /** A chain ends in one place only, and not if it is endless. */
  lemma EndIsUnique(visit: Visitor, i: nat)
    requires EndsAt(visit, i)
    ensures !Endless(visit)
    ensures forall j: nat :: EndsAt(visit, j) ==> j == i
  {
    assert Chain(visit, i + 1) == None;
    forall j: nat | EndsAt(visit, j) ensures j == i {
      if i < j { ChainPrefix(visit, i, j); }
      if j < i { ChainPrefix(visit, j, i); }
    }
  }

  /** Equal offsets have equal futures. */
  lemma {:induction false} SameFuture(visit: Visitor, i: nat, j: nat, d: nat)
    requires Chain(visit, i) == Chain(visit, j)
    ensures Chain(visit, i + d) == Chain(visit, j + d)
  {
    if d == 0 {
    } else {
      SameFuture(visit, i, j, d - 1);
    }
  }

  lemma {:induction false} RevisitGoesOn(visit: Visitor, i: nat, j: nat, n: nat)
    requires i < j && Chain(visit, j).Some? && Chain(visit, i) == Chain(visit, j)
    ensures Chain(visit, n).Some?
    decreases n
  {
    if n <= j {
      ChainPrefix(visit, n, j);
    } else {
      SameFuture(visit, i, j, n - j);
      RevisitGoesOn(visit, i, j, n - (j - i));
    }
  }

  /** A chain that comes back to an offset never ends. */
  lemma RevisitNeverEnds(visit: Visitor)
    requires Revisits(visit)
    ensures Endless(visit)
  {
    var i: nat, j: nat :| i < j && Chain(visit, j).Some? && Chain(visit, i) == Chain(visit, j);
    forall n: nat ensures Chain(visit, n).Some? { RevisitGoesOn(visit, i, j, n); }
  }

  /* ----- what the reader answers ----- */

  datatype Outcome = Found(serial: seq<Byte>) | TooSmall | Truncated | Loop | NotFound

  /** The answer at the end of the chain: a serial number is the eight bytes after its header. */
  function AnswerAt(data: seq<Byte>, visit: Visitor, offset: nat): Outcome {
    if visit(offset) != Serial then NotFound
    else if offset + 12 > |data| then Truncated
    else Found(data[offset + 4..offset + 12])
  }

  ghost predicate Correct(data: seq<Byte>, visit: Visitor, r: Outcome) {
    if |data| < EXT_CAP_START + 4 then r == TooSmall
    else
      || (r == Loop && Endless(visit))
      || exists n: nat :: EndsAt(visit, n) && r == AnswerAt(data, visit, Chain(visit, n).value)
  }

  /** The answer is determined by the bytes. */
  lemma AnswerIsUnique(data: seq<Byte>, visit: Visitor, r: Outcome, r': Outcome)
    requires Correct(data, visit, r) && Correct(data, visit, r')
    ensures r == r'
  {
    if n: nat :| EndsAt(visit, n) {
      EndIsUnique(visit, n);
    }
  }

  ghost function UpTo(bound: nat): (s: set<nat>)
    ensures forall o: nat :: o in s <==> o <= bound
  {
    if bound == 0 then {0} else UpTo(bound - 1) + {bound}
  }

  lemma {:induction false} ProductBound(p: nat, q: nat, k: nat)
    requires p <= q
    ensures p * k <= q * k
  {
    if k == 0 {
    } else {
      ProductBound(p, q, k - 1);
      assert p * k == p * (k - 1) + p && q * k == q * (k - 1) + q;
    }
  }

  method Inspect(data: seq<Byte>, scale: nat, offset: nat) returns (here: Visit)
    requires offset != 0 && offset + 4 <= |data|
    ensures here == VisitAt(data, scale, offset)
    ensures here.Continue? ==> here.next <= 0xFFF * scale
  {
    var header := Header(data, offset);
    if header == 0 { return End; }
    if CapId(header) == DSN_CAPABILITY { return Serial; }
    var nextPtr := NextPtr(header);
    if nextPtr == 0 { return End; }
    ProductBound(nextPtr, 0xFFF, scale);
    return Continue(nextPtr * scale);
  }

  /** Only offsets within reach of a pointer are visited, so an endless walk is caught after finitely
      many steps. The outcome is `Loop` or the offset at which the chain ends. */
  method FollowChain(data: seq<Byte>, scale: nat) returns (looped: bool, offset: nat, ghost n: nat)
    requires |data| >= EXT_CAP_START + 4
    ensures looped ==> Revisits(Walk(data, scale))
    ensures !looped ==> EndsAt(Walk(data, scale), n) && Chain(Walk(data, scale), n) == Some(offset)
  {
    ghost var visit: Visitor := Walk(data, scale);
    ghost var reachable := UpTo(0xFFF * scale + EXT_CAP_START);
    var visited: set<nat> := {};
    looped, offset, n := false, EXT_CAP_START, 0;
    while offset != 0 && offset + 4 <= |data|
      invariant Chain(visit, n) == Some(offset) && offset in reachable && !looped
      invariant forall o :: o in visited ==> exists i: nat :: i < n && Chain(visit, i) == Some(o)
      decreases reachable - visited
    {
      if offset in visited { return true, offset, n; }
      visited := visited + {offset};
      var here := Inspect(data, scale, offset);
      if !here.Continue? { return; }
      offset, n := here.next, n + 1;
    }
  }

  /** The eight bytes after a serial number header, in their order. */
  ghost predicate IsSerial(data: seq<Byte>, offset: nat, serial: seq<Byte>) {
    && offset + 12 <= |data| && data[offset] == 3 && data[offset + 1] == 0
    && |serial| == 8 && forall j :: 0 <= j < 8 ==> serial[j] == data[offset + 4 + j]
  }

  method ReadDeviceSerial(data: seq<Byte>, scale: nat) returns (r: Outcome)
    ensures Correct(data, Walk(data, scale), r)
    ensures r == Loop <==> |data| >= EXT_CAP_START + 4 && Revisits(Walk(data, scale))
    ensures r == TooSmall <==> |data| < 0x104
    ensures r.Found? ==> exists offset: nat :: IsSerial(data, offset, r.serial)
    ensures r == Truncated ==> exists offset: nat ::
      offset + 4 <= |data| < offset + 12 && data[offset] == 3 && data[offset + 1] == 0
  {
    if |data| < EXT_CAP_START + 4 { return TooSmall; }
    var looped, offset, n := FollowChain(data, scale);
    if looped {
      RevisitNeverEnds(Walk(data, scale));
      return Loop;
    }
    EndIsUnique(Walk(data, scale), n);
    if Revisits(Walk(data, scale)) { RevisitNeverEnds(Walk(data, scale)); }
    if offset == 0 || offset + 4 > |data| { return NotFound; }
    var here := Inspect(data, scale, offset);
    if here == End { return NotFound; }
    VisitInBytes(data, scale, offset);
    if offset + 12 > |data| { return Truncated; }
    assert IsSerial(data, offset, data[offset + 4..offset + 12]);
    return Found(data[offset + 4..offset + 12]);
  }

  lemma FourBytes(b0: Byte, b1: Byte, b2: Byte, b3: Byte)
    ensures LittleEndian([b0, b1, b2, b3]) ==
      b0 as int + 0x100 * b1 as int + 0x1_0000 * b2 as int + 0x100_0000 * b3 as int
  {
    assert [b0, b1, b2, b3][1..] == [b1, b2, b3] && [b1, b2, b3][1..] == [b2, b3];
    assert [b2, b3][1..] == [b3] && [b3][1..] == [];
    assert LittleEndian([b3]) == b3 as int;
    assert LittleEndian([b2, b3]) == b2 as int + 0x100 * b3 as int;
  }

  /** A header read byte by byte: the capability is the low half, the pointer the top twelve bits. */
  lemma VisitInBytes(data: seq<Byte>, scale: nat, offset: nat)
    requires 0 < offset && offset + 4 <= |data|
    ensures var isSerial := data[offset] == 3 && data[offset + 1] == 0;
      var pointer := 16 * (data[offset + 3] as nat) + data[offset + 2] as nat / 16;
      VisitAt(data, scale, offset) ==
        if isSerial then Serial else if pointer == 0 then End else Continue(pointer * scale)
  {
    var b0, b1, b2, b3 := data[offset], data[offset + 1], data[offset + 2], data[offset + 3];
    assert data[offset..offset + 4] == [b0, b1, b2, b3];
    FourBytes(b0, b1, b2, b3);
    FieldsOf(b0, b1, b2, b3, Header(data, offset));
  }

  lemma FieldsOf(b0: Byte, b1: Byte, b2: Byte, b3: Byte, header: nat)
    requires header == b0 + 0x100 * b1 + 0x1_0000 * b2 + 0x100_0000 * b3
    ensures CapId(header) == b0 + 0x100 * b1 && NextPtr(header) == 16 * b3 + b2 / 16
  {
    assert header == (b2 + 0x100 * b3) * 0x1_0000 + (b0 + 0x100 * b1);
    assert header / 0x1_0000 == b2 + 0x100 * b3;
    assert header / 0x10_0000 == header / 0x1_0000 / 16 == 16 * b3 + b2 / 16;
  }

  /* ----- when scaling the pointer matters ----- */

  /** The walk of the code answers as the walk by byte offsets does. */
  ghost predicate SameAnswer(data: seq<Byte>) {
    forall r :: Correct(data, Walk(data, 1), r) <==> Correct(data, Walk(data, CODE_SCALE), r)
  }

  /** Bytes with that header at the start of the extended space. */
  ghost predicate StartsWith(data: seq<Byte>, size: nat, header: nat) {
    size >= EXT_CAP_START + 4 && |data| == size && Header(data, EXT_CAP_START) == header
  }

  /** The first header decides: the walk does not get past it, or its pointer leads out of the bytes. */
  predicate NeverFollows(size: nat, header: nat) {
    header == 0 || CapId(header) == DSN_CAPABILITY || NextPtr(header) == 0 || NextPtr(header) + 4 > size
  }

  lemma AnswerOf(data: seq<Byte>, visit: Visitor, n: nat)
    requires |data| >= EXT_CAP_START + 4 && EndsAt(visit, n)
    ensures forall r :: Correct(data, visit, r) <==> r == AnswerAt(data, visit, Chain(visit, n).value)
  {
    EndIsUnique(visit, n);
  }

  lemma SameWhenNotFollowed(data: seq<Byte>, size: nat, header: nat)
    requires StartsWith(data, size, header) && NeverFollows(size, header)
    ensures SameAnswer(data)
  {
    var spec, code := Walk(data, 1), Walk(data, CODE_SCALE);
    assert Chain(spec, 0) == Some(EXT_CAP_START) && Chain(code, 0) == Some(EXT_CAP_START);
    if spec(EXT_CAP_START).Continue? {
      assert Chain(spec, 1) == Some(NextPtr(header)) && Chain(code, 1) == Some(NextPtr(header) * CODE_SCALE);
      AnswerOf(data, spec, 1);
      AnswerOf(data, code, 1);
    } else {
      AnswerOf(data, spec, 0);
      AnswerOf(data, code, 0);
    }
  }

  function ByteOf(n: nat, k: nat): Byte
    requires k < 4
  {
    if k == 0 then n % 0x100
    else if k == 1 then n / 0x100 % 0x100
    else if k == 2 then n / 0x1_0000 % 0x100
    else n / 0x100_0000 % 0x100
  }

  lemma BytesMakeHeader(n: nat)
    requires n < 0x1_0000_0000
    ensures n == ByteOf(n, 0) + 0x100 * ByteOf(n, 1) + 0x1_0000 * ByteOf(n, 2) + 0x100_0000 * ByteOf(n, 3)
  {
    assert n / 0x1_0000 == n / 0x100 / 0x100 && n / 0x100_0000 == n / 0x1_0000 / 0x100;
  }

  function SpacedByte(header: nat, p: nat, i: nat): Byte {
    if EXT_CAP_START <= i < EXT_CAP_START + 4 then ByteOf(header, i - EXT_CAP_START)
    else if i == p then DSN_CAPABILITY
    else 0
  }

  /** That header at 0x100, a serial number header at `p`, and zeros. */
  function Spaced(size: nat, header: nat, p: nat): (data: seq<Byte>)
    ensures |data| == size
  {
    seq(size, i requires 0 <= i < size => SpacedByte(header, p, i))
  }

  lemma SpacedHeaders(size: nat, header: nat, p: nat, offset: nat)
    requires header < 0x1_0000_0000 && p % 4 == 0 && offset % 4 == 0 && offset + 4 <= size
    ensures Header(Spaced(size, header, p), offset) ==
      if offset == EXT_CAP_START then header else if offset == p then DSN_CAPABILITY else 0
  {
    var data := Spaced(size, header, p);
    BytesMakeHeader(header);
    FourBytes(data[offset], data[offset + 1], data[offset + 2], data[offset + 3]);
    assert data[offset..offset + 4] == [data[offset], data[offset + 1], data[offset + 2], data[offset + 3]];
  }

  /** With a serial number where the pointer leads, the byte walk ends on it or, if the pointer leads
      back to the start, loops; the scaled walk does the opposite. */
  lemma DiffersWhenFollowed(size: nat, header: nat)
    requires size >= EXT_CAP_START + 4 && header < 0x1_0000_0000 && NextPtr(header) % 4 == 0
    requires !NeverFollows(size, header)
    ensures var data := Spaced(size, header, NextPtr(header));
      StartsWith(data, size, header) && !SameAnswer(data)
  {
    var p := NextPtr(header);
    var data := Spaced(size, header, p);
    var spec, code := Walk(data, 1), Walk(data, CODE_SCALE);
    SpacedHeaders(size, header, p, EXT_CAP_START);
    SpacedHeaders(size, header, p, p);
    if CODE_SCALE * p + 4 <= size { SpacedHeaders(size, header, p, CODE_SCALE * p); }
    assert Chain(spec, 0) == Some(EXT_CAP_START) && Chain(spec, 1) == Some(p);
    assert Chain(code, 0) == Some(EXT_CAP_START) && Chain(code, 1) == Some(CODE_SCALE * p);
    if p == EXT_CAP_START {
      assert Revisits(spec);
      RevisitNeverEnds(spec);
      assert Correct(data, spec, Loop);
      AnswerOf(data, code, 1);
    } else {
      AnswerOf(data, spec, 1);
      if CODE_SCALE * p == EXT_CAP_START {
        assert Revisits(code);
        RevisitNeverEnds(code);
        assert Correct(data, code, Loop);
      } else {
        AnswerOf(data, code, 1);
      }
      assert Correct(data, spec, AnswerAt(data, spec, p));
    }
  }

  /** For spaces of any size and any first header with an aligned pointer: scaling the pointer by four
      makes no difference to any space that starts with the header exactly when the walk does not
      follow its pointer, or the pointer leads out of the space. */
  lemma ScalingHarmlessIff(size: nat, header: nat)
    requires size >= EXT_CAP_START + 4 && header < 0x1_0000_0000 && NextPtr(header) % 4 == 0
    ensures (forall data :: StartsWith(data, size, header) ==> SameAnswer(data)) <==> NeverFollows(size, header)
  {
    if NeverFollows(size, header) {
      forall data | StartsWith(data, size, header) ensures SameAnswer(data) {
        SameWhenNotFollowed(data, size, header);
      }
    } else {
      DiffersWhenFollowed(size, header);
    }
  }

  /** A vendor capability at 0x100 whose pointer is the byte offset 0x140, and there the serial number
      capability with the serial 1, 2, .., 8. */
  function TwoCapabilities(): (data: seq<Byte>)
    ensures |data| == 0x150
    ensures Header(data, 0x100) == 0x1401_0001 && Header(data, 0x140) == 0x0001_0003
    ensures data[0x144..0x14C] == [1, 2, 3, 4, 5, 6, 7, 8]
  {
    var data: seq<Byte> := seq(0x150, i => if i == 0x100 || i == 0x102 || i == 0x142 then 0x01
                                           else if i == 0x103 then 0x14
                                           else if i == 0x140 then 0x03
                                           else if 0x144 <= i < 0x14C then i - 0x143
                                           else 0x00);
    FourBytes(0x01, 0x00, 0x01, 0x14);
    FourBytes(0x03, 0x00, 0x01, 0x00);
    assert data[0x100..0x104] == [0x01, 0x00, 0x01, 0x14];
    assert data[0x140..0x144] == [0x03, 0x00, 0x01, 0x00];
    data
  }

  /** Scaling the pointer by four misses a serial number that pointers in bytes lead to. */
  lemma ScaledPointerMisses()
    ensures var data := TwoCapabilities();
      && Correct(data, Walk(data, 1), Found([1, 2, 3, 4, 5, 6, 7, 8]))
      && Correct(data, Walk(data, 4), NotFound)
  {
    var data := TwoCapabilities();
    var spec, code := Walk(data, 1), Walk(data, CODE_SCALE);
    assert NextPtr(0x1401_0001) == 0x140 && CapId(0x1401_0001) == 1 && CapId(0x0001_0003) == 3;
    assert Chain(spec, 0) == Some(0x100) && Chain(spec, 1) == Some(0x140);
    assert EndsAt(spec, 1) && AnswerAt(data, spec, 0x140) == Found(data[0x144..0x14C]);
    assert Chain(code, 0) == Some(0x100) && Chain(code, 1) == Some(0x500);
    assert EndsAt(code, 1) && AnswerAt(data, code, 0x500) == NotFound;
  }
}
