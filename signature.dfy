/** `OutputMetaPool.Struct`: a struct signature, the ordered list of field
    names that identifies a record shape. */
module Signature {
  import opened Base

  /** Java's `int`, used for hash codes. */
  newtype int32 = x: int | -0x8000_0000 <= x < 0x8000_0000

  datatype Struct = Struct(names: seq<string>)

  /** What `equals(Object)` may be handed: another Struct, or an object of an
      unrelated class. */
  datatype Object = StructObject(struct: Struct) | OtherObject

  /** Building a Struct from a null name array throws. */
  function NewStruct(names: Option<seq<string>>): (r: Result<Struct>)
    ensures r.Failure? <==> names.None?
    ensures r.Failure? ==> r.error == NullPointerException
    ensures r.Success? ==> r.value.names == names.value
  {
    match names
    case None => Failure(NullPointerException)
    case Some(ns) => Success(Struct(ns))
  }

  /** Element-wise comparison of two name arrays, as `Arrays.equals` does it. */
  predicate NamesEqual(xs: seq<string>, ys: seq<string>) {
    |xs| == |ys| && (xs == [] || (xs[0] == ys[0] && NamesEqual(xs[1..], ys[1..])))
  }

  /** `equals(Object)`: another Struct with element-wise equal names. */
  predicate Equals(s: Struct, o: Object): (r: bool)
    ensures r <==> o == StructObject(s)
  {
    NamesEqualIsEquality(s.names, if o.StructObject? then o.struct.names else []);
    o.StructObject? && NamesEqual(s.names, o.struct.names)
  }

  /** Wrap-around to a Java `int`. */
  function ToInt32(x: int): int32 {
    var low := x % 0x1_0000_0000;
    (if low < 0x8000_0000 then low else low - 0x1_0000_0000) as int32
  }

  /** The shape of the `String.hashCode` polynomial, taken over code points:
      a character outside the Basic Multilingual Plane counts once here, where
      Java sums its two UTF-16 units. */
  function StringHash(s: string): int32 {
    if s == [] then 0 else ToInt32(31 * StringHash(s[..|s| - 1]) as int + s[|s| - 1] as int)
  }

  /** The `Arrays.hashCode` polynomial over the names. */
  function NamesHash(xs: seq<string>): int32 {
    if xs == [] then 1 else ToInt32(31 * NamesHash(xs[..|xs| - 1]) as int + StringHash(xs[|xs| - 1]) as int)
  }

  /** `hashCode()`, assumed to be the `Arrays.hashCode` of the name array:
      no names hash to 1, as `Arrays.hashCode` of an empty array does. */
  function HashCode(s: Struct): (h: int32)
    ensures s.names == [] ==> h == 1
  {
    NamesHash(s.names)
  }

  lemma {:induction false} NamesEqualIsEquality(xs: seq<string>, ys: seq<string>)
    ensures NamesEqual(xs, ys) <==> xs == ys
  {
    if xs != [] && |xs| == |ys| {
      NamesEqualIsEquality(xs[1..], ys[1..]);
      if xs[0] == ys[0] && xs[1..] == ys[1..] {
        assert xs == [xs[0]] + xs[1..] && ys == [ys[0]] + ys[1..];
      }
    }
  }

  /** Two Structs built from element-wise equal name arrays are equal (and
      conversely), so Struct is a sound key for a hash map. */
  lemma EqualsIffSameNames(a: Struct, b: Struct)
    ensures Equals(a, StructObject(b)) <==> a == b
  {
    NamesEqualIsEquality(a.names, b.names);
  }

  /** Equal Structs have equal hash codes. */
  lemma EqualsConsistentWithHashCode(a: Struct, b: Struct)
    requires Equals(a, StructObject(b))
    ensures HashCode(a) == HashCode(b)
  {
    EqualsIffSameNames(a, b);
  }

  /** A Struct is not equal to an object of another class. */
  lemma NotEqualToOtherObject(a: Struct)
    ensures !Equals(a, OtherObject)
  {
  }

  /** Order matters: the same names in another order make another Struct. */
  lemma OrderSensitive()
    ensures !Equals(Struct(["id", "name"]), StructObject(Struct(["name", "id"])))
  {
    EqualsIffSameNames(Struct(["id", "name"]), Struct(["name", "id"]));
    assert ["id", "name"][0] != ["name", "id"][0];
  }
}
