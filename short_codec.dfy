/** Conversions between Java's `Short` and `Long` and between the boxed and
    unboxed `short` array types (ShortCodec). */
module ShortCodec {
  import opened Base

  /** Java's 16-bit signed `short`. */
  newtype short = x: int | -0x8000 <= x < 0x8000

  /** Java's 64-bit signed `long`. */
  newtype long = x: int | -0x8000_0000_0000_0000 <= x < 0x8000_0000_0000_0000

  const ShortModulus: int := 0x1_0000

  predicate InShortRange(x: long) {
    -0x8000 <= x < 0x8000
  }

  /** `toShort`: null stays null; otherwise the narrowing primitive conversion
      of section 5.1.3 of the Java Language Specification, which keeps the low
      16 bits of the two's-complement representation. */
  function ToShort(l: Option<long>): (r: Option<short>)
    ensures r.None? <==> l.None?
    ensures l.Some? ==> (r.value as int - l.value as int) % ShortModulus == 0
  {
    match l
    case None => None
    case Some(x) =>
      var low := x as int % ShortModulus;
      Some((if low < 0x8000 then low else low - ShortModulus) as short)
  }

  /** `toLong`: null stays null; otherwise the widening conversion, which is
      exact. */
  function ToLong(s: Option<short>): (r: Option<long>)
    ensures r.None? <==> s.None?
    ensures s.Some? ==> r.value as int == s.value as int
  {
    match s
    case None => None
    case Some(x) => Some(x as long)
  }

  /** Two shorts congruent modulo 2^16 are the same short: the result of
      ToShort is the only short that keeps the input's low 16 bits. */
  lemma CongruentShortsAreEqual(a: short, b: short)
    requires (a as int - b as int) % ShortModulus == 0
    ensures a == b
  {
  }

  /** A long in short range narrows to itself. */
  lemma ToShortInRange(x: long)
    requires InShortRange(x)
    ensures ToShort(Some(x)) == Some(x as short)
  {
    CongruentShortsAreEqual(ToShort(Some(x)).value, x as short);
  }

  /** Widening then narrowing gives back every Short, null included. */
  lemma ToShortOfToLong(s: Option<short>)
    ensures ToShort(ToLong(s)) == s
  {
    if s.Some? {
      ToShortInRange(s.value as long);
    }
  }

  /** Narrowing then widening gives back the Long exactly when it is null or
      lies in short range. */
  lemma ToLongOfToShort(l: Option<long>)
    ensures ToLong(ToShort(l)) == l <==> (l.None? || InShortRange(l.value))
  {
    if l.Some? && InShortRange(l.value) {
      ToShortInRange(l.value);
    }
  }

  /** The element-wise boxing that `convert(short[])` performs. */
  function Box(s: seq<short>): (b: seq<Option<short>>)
    ensures |b| == |s|
  {
    if s == [] then [] else [Some(s[0])] + Box(s[1..])
  }

  lemma {:induction false} BoxAt(s: seq<short>, i: nat)
    requires i < |s|
    ensures Box(s)[i] == Some(s[i])
  {
    if i > 0 {
      BoxAt(s[1..], i - 1);
    }
  }

  predicate NoNulls(b: seq<Option<short>>) {
    forall i :: 0 <= i < |b| ==> b[i].Some?
  }

  /** The element-wise unboxing that `convert(Short[])` performs: auto-unboxing
      a null element throws. */
  function Unbox(b: seq<Option<short>>): (r: Result<seq<short>>)
    ensures r.Failure? ==> r.error == NullPointerException
    ensures r.Success? ==> |r.value| == |b|
  {
    if b == [] then Success([])
    else if b[0].None? then Failure(NullPointerException)
    else
      match Unbox(b[1..])
      case Failure(e) => Failure(e)
      case Success(rest) => Success([b[0].value] + rest)
  }

  /** Unboxing succeeds exactly when there is no null element, and then keeps
      every element in place. */
  lemma {:induction false} UnboxSpec(b: seq<Option<short>>)
    ensures Unbox(b).Success? <==> NoNulls(b)
    ensures Unbox(b).Failure? ==> Unbox(b).error == NullPointerException
    ensures Unbox(b).Success? ==>
      |Unbox(b).value| == |b| &&
      forall i :: 0 <= i < |b| ==> b[i] == Some(Unbox(b).value[i])
  {
    if b != [] {
      UnboxSpec(b[1..]);
      if b[0].Some? && !NoNulls(b) {
        var i :| 0 <= i < |b| && b[i].None?;
        assert b[1..][i - 1].None?;
      }
      if NoNulls(b) {
        assert NoNulls(b[1..]) by {
          forall j | 0 <= j < |b[1..]| ensures b[1..][j].Some? {
            assert b[1..][j] == b[j + 1];
          }
        }
        var rest := Unbox(b[1..]).value;
        forall i | 0 <= i < |b| ensures b[i] == Some(([b[0].value] + rest)[i]) {
          if i > 0 {
            assert b[i] == b[1..][i - 1];
          }
        }
      }
    }
  }

  /** Boxing then unboxing is the identity. */
  lemma {:induction false} UnboxOfBox(s: seq<short>)
    ensures Unbox(Box(s)) == Success(s)
  {
    if s != [] {
      UnboxOfBox(s[1..]);
      assert [s[0]] + s[1..] == s;
    }
  }

  /** Unboxing an array with no null element then boxing it again is the
      identity. */
  lemma BoxOfUnbox(b: seq<Option<short>>)
    requires NoNulls(b)
    ensures Unbox(b).Success? && Box(Unbox(b).value) == b
  {
    UnboxSpec(b);
    var s := Unbox(b).value;
    forall i | 0 <= i < |b| ensures Box(s)[i] == b[i] {
      BoxAt(s, i);
    }
  }

  /** `convert(short[])`: null gives null; otherwise a new `Short[]` of the
      same length holding the same values. */
  method ConvertToBoxed(arr: array?<short>) returns (result: array?<Option<short>>)
    ensures arr == null <==> result == null
    ensures arr != null ==> fresh(result) && result[..] == Box(arr[..])
  {
    if arr == null {
      return null;
    }
    result := new Option<short>[arr.Length](_ => None);
    for i := 0 to arr.Length
      invariant forall j :: 0 <= j < i ==> result[j] == Some(arr[j])
    {
      result[i] := Some(arr[i]);
    }
    forall j | 0 <= j < arr.Length ensures result[..][j] == Box(arr[..])[j] {
      BoxAt(arr[..], j);
    }
  }

  /** `convert(Short[])`: null gives null; an array with a null element throws
      NullPointerException; otherwise a new `short[]` of the same length
      holding the same values. */
  method ConvertToPrimitive(arr: array?<Option<short>>) returns (result: Result<array?<short>>)
    ensures arr == null ==> result == Success(null)
    ensures arr != null ==> (result.Success? <==> NoNulls(arr[..]))
    ensures arr != null && result.Failure? ==> result.error == NullPointerException
    ensures arr != null && result.Success? ==>
      result.value != null && fresh(result.value) &&
      Unbox(arr[..]) == Success(result.value[..])
  {
    if arr == null {
      return Success(null);
    }
    var out := new short[arr.Length];
    for i := 0 to arr.Length
      invariant forall j :: 0 <= j < i ==> arr[j] == Some(out[j])
    {
      if arr[i].None? {
        assert !NoNulls(arr[..]) by { assert arr[..][i].None?; }
        UnboxSpec(arr[..]);
        return Failure(NullPointerException);
      }
      out[i] := arr[i].value;
    }
    UnboxSpec(arr[..]);
    assert Unbox(arr[..]).value == out[..];
    result := Success(out);
  }
}
