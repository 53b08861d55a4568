/**
 What a sequence hash is taken over: every reference framed by the lengths of its slot and
 its object hash, eight bytes each, most significant first.
 */
module SequenceFraming {
  datatype ObjectRef = ObjectRef(slot: string, objectHash: string, semanticHash: string)

  /** Equality of references as context deltas and sequence hashes see it. */
  predicate SameRef(a: ObjectRef, b: ObjectRef) {
    a.slot == b.slot && a.objectHash == b.objectHash
  }

  ghost predicate SameRefs(a: seq<ObjectRef>, b: seq<ObjectRef>) {
    |a| == |b| && forall i :: 0 <= i < |a| ==> SameRef(a[i], b[i])
  }

  const DOMAIN := "llmapi-logger/sequence/v1\0"

  function Power256(n: nat): (p: nat)
    ensures p > 0
  {
    if n == 0 then 1 else 256 * Power256(n - 1)
  }

  function BigEndian(value: nat, width: nat): (r: string)
    ensures |r| == width
    decreases width
  {
    if width == 0 then [] else BigEndian(value / 256, width - 1) + [(value % 256) as char]
  }

  /** Bytes read as one number, the first counting most. */
  function NumberOf(bytes: string): nat {
    if bytes == [] then 0 else 256 * NumberOf(bytes[..|bytes| - 1]) + bytes[|bytes| - 1] as int
  }

  lemma {:induction false} BigEndianExactly(value: nat, width: nat)
    ensures NumberOf(BigEndian(value, width)) == value % Power256(width)
    decreases width
  {
    if width > 0 {
      var r := BigEndian(value, width);
      BigEndianExactly(value / 256, width - 1);
      assert r[..width - 1] == BigEndian(value / 256, width - 1);
      LowDigits(value, Power256(width - 1));
    }
  }

  lemma LowDigits(value: nat, p: nat)
    requires p > 0
    ensures 256 * ((value / 256) % p) + value % 256 == value % (256 * p)
  {
    var q, high := value / 256, value / 256 / p;
    assert q == high * p + q % p && value == 256 * q + value % 256;
    assert value == high * (256 * p) + (256 * (q % p) + value % 256);
    Remainder(value, high, 256 * p, 256 * (q % p) + value % 256);
  }

  lemma Remainder(value: nat, high: nat, divisor: nat, rest: nat)
    requires rest < divisor && value == high * divisor + rest
    ensures value % divisor == rest
  {
    var over := value / divisor - high;
    assert value == (value / divisor) * divisor + value % divisor;
    assert over * divisor == rest - value % divisor;
    OneMore(over, divisor);
    OneMore(-over, divisor);
    assert (-over) * divisor == -(over * divisor);
  }

  lemma OneMore(times: int, divisor: nat)
    ensures times >= 1 ==> times * divisor >= divisor
    ensures times == 0 ==> times * divisor == 0
  {
    if times >= 1 {
      assert times * divisor == (times - 1) * divisor + divisor;
      assert (times - 1) * divisor >= 0;
    }
  }

  lemma {:induction false} BigEndianInjective(a: nat, b: nat, width: nat)
    requires a < Power256(width) && b < Power256(width)
    requires BigEndian(a, width) == BigEndian(b, width)
    ensures a == b
    decreases width
  {
    if width > 0 {
      var x, y := BigEndian(a, width), BigEndian(b, width);
      assert x[..width - 1] == BigEndian(a / 256, width - 1) && y[..width - 1] == BigEndian(b / 256, width - 1);
      assert x[width - 1] == (a % 256) as char && y[width - 1] == (b % 256) as char;
      BigEndianInjective(a / 256, b / 256, width - 1);
    }
  }

  /** Only the low eight bytes of the value are written. */
  method PutUint64(destination: array<char>, value: nat)
    requires destination.Length == 8
    modifies destination
    ensures destination[..] == BigEndian(value, 8)
  {
    var rest, index := value, 8;
    assert BigEndian(value, 8) == BigEndian(rest, index) + destination[index..];
    while index > 0
      invariant 0 <= index <= 8
      invariant BigEndian(value, 8) == BigEndian(rest, index) + destination[index..]
    {
      index := index - 1;
      destination[index] := (rest % 256) as char;
      assert destination[index..] == [destination[index]] + destination[index + 1..];
      rest := rest / 256;
    }
  }

  function Frame(ref: ObjectRef): (r: string)
    ensures |r| == 16 + |ref.slot| + |ref.objectHash|
  {
    BigEndian(|ref.slot|, 8) + ref.slot + BigEndian(|ref.objectHash|, 8) + ref.objectHash
  }

  function Framing(refs: seq<ObjectRef>): string {
    if refs == [] then [] else Frame(refs[0]) + Framing(refs[1..])
  }

  /** The bytes fed to the digest, written piece by piece. */
  method SequenceInput(refs: seq<ObjectRef>) returns (written: string)
    ensures written == "llmapi-logger/sequence/v1\0" + Framing(refs)
  {
    hide Frame;
    written := DOMAIN;
    assert refs[0..] == refs;
    for i := 0 to |refs|
      invariant written + Framing(refs[i..]) == DOMAIN + Framing(refs)
    {
      var frame := FrameBytes(refs[i]);
      assert refs[i..][1..] == refs[i + 1..];
      assert (written + frame) + Framing(refs[i + 1..]) == written + (frame + Framing(refs[i + 1..]));
      written := written + frame;
    }
    assert refs[|refs|..] == [];
    assert written + [] == written;
  }

  method FrameBytes(ref: ObjectRef) returns (written: string)
    ensures written == Frame(ref)
  {
    hide BigEndian;
    var length := new char[8];
    PutUint64(length, |ref.slot|);
    written := length[..] + ref.slot;
    PutUint64(length, |ref.objectHash|);
    written := written + length[..] + ref.objectHash;
  }

  /** Slots and hashes whose lengths fit in eight bytes: all that a 64-bit machine can hold. */
  ghost predicate Addressable(refs: seq<ObjectRef>) {
    forall i :: 0 <= i < |refs| ==> |refs[i].slot| < Power256(8) && |refs[i].objectHash| < Power256(8)
  }

  /** A frame says where it ends. */
  lemma FramePrefixFree(a: ObjectRef, b: ObjectRef, x: string, y: string)
    requires Addressable([a]) && Addressable([b])
    requires Frame(a) + x == Frame(b) + y
    ensures SameRef(a, b) && x == y
  {
    hide BigEndian;
    hide Power256;
    assert [a][0] == a && [b][0] == b;
    var whole := Frame(a) + x;
    assert whole[..8] == BigEndian(|a.slot|, 8) && whole[..8] == BigEndian(|b.slot|, 8);
    BigEndianInjective(|a.slot|, |b.slot|, 8);
    var n := 8 + |a.slot|;
    assert whole[8..n] == a.slot && whole[8..n] == b.slot;
    assert whole[n..n + 8] == BigEndian(|a.objectHash|, 8) && whole[n..n + 8] == BigEndian(|b.objectHash|, 8);
    BigEndianInjective(|a.objectHash|, |b.objectHash|, 8);
    var m := n + 8 + |a.objectHash|;
    assert whole[n + 8..m] == a.objectHash && whole[n + 8..m] == b.objectHash;
    assert whole[m..] == x && whole[m..] == y;
  }

  lemma SameFrame(a: ObjectRef, b: ObjectRef)
    requires SameRef(a, b)
    ensures Frame(a) == Frame(b)
  {
  }

  lemma {:induction false} SameFraming(a: seq<ObjectRef>, b: seq<ObjectRef>)
    requires SameRefs(a, b)
    ensures Framing(a) == Framing(b)
  {
    if a != [] {
      SameFrame(a[0], b[0]);
      SameFraming(a[1..], b[1..]);
    }
  }

  /** Two sequences have the same digest input exactly when they agree on every slot and hash. */
  lemma {:induction false} FramingInjective(a: seq<ObjectRef>, b: seq<ObjectRef>)
    requires Addressable(a) && Addressable(b)
    ensures Framing(a) == Framing(b) <==> SameRefs(a, b)
    decreases |a|
  {
    hide Frame;
    hide Power256;
    if a == [] || b == [] {
      assert |Framing(a)| > 0 <==> a != [];
      assert |Framing(b)| > 0 <==> b != [];
    } else {
      FramingInjective(a[1..], b[1..]);
      if Framing(a) == Framing(b) {
        FramePrefixFree(a[0], b[0], Framing(a[1..]), Framing(b[1..]));
        assert forall i :: 1 <= i < |a| ==> a[i] == a[1..][i - 1] && b[i] == b[1..][i - 1];
      }
      if SameRefs(a, b) {
        SameFraming(a, b);
      }
    }
  }
}
