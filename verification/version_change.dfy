/** The record of one artifact's version change: four nullable strings with a
    null-aware structural equality, the usual 31-multiplier hash in 32-bit
    arithmetic, and a diagnostic rendering. A Java null is `None`. */
module VersionChanges {
  import opened Wrappers
  import opened JavaText

  datatype VersionChange = VersionChange(
    groupId: Option<string>,
    artifactId: Option<string>,
    oldVersion: Option<string>,
    newVersion: Option<string>)

  /** The constructor: each getter gives back exactly the argument it was built from. */
  function Make(groupId: Option<string>, artifactId: Option<string>,
                oldVersion: Option<string>, newVersion: Option<string>): (c: VersionChange)
    ensures c.groupId == groupId && c.artifactId == artifactId
    ensures c.oldVersion == oldVersion && c.newVersion == newVersion
  {
    VersionChange(groupId, artifactId, oldVersion, newVersion)
  }

  /** What `equals` may be handed: null, another change, or an object of some other class. */
  datatype JavaObject = Null | Change(change: VersionChange) | Other(className: string)

  /** `x != null ? x.equals(y) : y == null` for two strings. */
  function NullSafeEquals(x: Option<string>, y: Option<string>): (r: bool)
    ensures r <==> x == y
  {
    match x
    case None => y.None?
    case Some(s) => y.Some? && y.value == s
  }

  /** Field by field, in the order artifactId, groupId, newVersion, oldVersion;
      the first field that differs makes the answer false. */
  function CompareAttributes(c: VersionChange, d: VersionChange): (r: bool)
    ensures r <==> c == d
  {
    if !NullSafeEquals(c.artifactId, d.artifactId) then false
    else if !NullSafeEquals(c.groupId, d.groupId) then false
    else if !NullSafeEquals(c.newVersion, d.newVersion) then false
    else if !NullSafeEquals(c.oldVersion, d.oldVersion) then false
    else true
  }

  /** `equals`: false for null and for any other class, otherwise the attribute comparison. */
  function Equals(c: VersionChange, o: JavaObject): (r: bool)
    ensures r <==> o == Change(c)
    ensures o.Null? || o.Other? ==> !r
  {
    match o
    case Null => false
    case Other(_) => false
    case Change(d) => CompareAttributes(c, d)
  }

  /** `equals` is an equivalence on changes. */
  lemma EqualsIsEquivalence(a: VersionChange, b: VersionChange, c: VersionChange)
    ensures Equals(a, Change(a))
    ensures Equals(a, Change(b)) <==> Equals(b, Change(a))
    ensures Equals(a, Change(b)) && Equals(b, Change(c)) ==> Equals(a, Change(c))
  {
  }

  const Two32: int := 0x1_0000_0000

  /** A Java `int`. */
  type Int32 = x: int | -0x8000_0000 <= x < 0x8000_0000

  /** Two's-complement wrap-around of an exact integer into an `int`. */
  function Wrap(x: int): (r: Int32)
    ensures (x - r) % Two32 == 0
  {
    var m := x % Two32;
    if m >= 0x8000_0000 then m - Two32 else m
  }

  /** An `int` wraps to itself. */
  lemma WrapInt32(x: Int32)
    ensures Wrap(x) == x
  {
  }

  /** Two integers congruent modulo 2^32 wrap to the same `int`. */
  lemma WrapCongruent(x: int, y: int)
    requires (x - y) % Two32 == 0
    ensures Wrap(x) == Wrap(y)
  {
    var k := (x - y) / Two32;
    assert x - y == k * Two32;
    assert x == y + k * Two32;
    assert x % Two32 == y % Two32 by {
      ModShift(y, k);
    }
  }

  lemma ModShift(y: int, k: int)
    ensures (y + k * Two32) % Two32 == y % Two32
  {
    var q := y / Two32;
    var m := y % Two32;
    assert y == q * Two32 + m;
    assert y + k * Two32 == (q + k) * Two32 + m;
  }

  /** `String.hashCode`, left abstract: any function from strings to `int`. */
  type StringHash = string -> Int32

  /** A field's share of the hash: its string hash, or 0 for null. */
  function FieldHash(f: Option<string>, hash: StringHash): Int32
  {
    match f
    case None => 0
    case Some(s) => hash(s)
  }

  /** One step `31 * result + field` in Java `int` arithmetic: the product wraps,
      then the sum wraps. */
  function Step(result: Int32, field: Int32): Int32
  {
    Wrap(Wrap(31 * result) + field)
  }

  /** One step agrees with exact arithmetic up to a single final wrap. */
  lemma StepWraps(x: int, field: Int32)
    ensures Step(Wrap(x), field) == Wrap(31 * x + field)
  {
    var w := Wrap(x);
    var p := Wrap(31 * w);
    assert (x - w) % Two32 == 0;
    var k := (x - w) / Two32;
    assert x - w == k * Two32;
    assert 31 * x - 31 * w == (31 * k) * Two32;
    assert (31 * w - p) % Two32 == 0;
    var j := (31 * w - p) / Two32;
    assert 31 * w - p == j * Two32;
    assert (31 * x + field) - (p + field) == (31 * k + j) * Two32;
    assert ((31 * x + field) - (p + field)) % Two32 == 0 by {
      ModShift(0, 31 * k + j);
    }
    WrapCongruent(31 * x + field, p + field);
  }

  /** `hashCode`, step by step as the source computes it. */
  function HashCode(c: VersionChange, hash: StringHash): (r: Int32)
    ensures r == Wrap(29791 * FieldHash(c.groupId, hash) + 961 * FieldHash(c.artifactId, hash)
                      + 31 * FieldHash(c.oldVersion, hash) + FieldHash(c.newVersion, hash))
  {
    var g := FieldHash(c.groupId, hash);
    var a := FieldHash(c.artifactId, hash);
    var o := FieldHash(c.oldVersion, hash);
    var n := FieldHash(c.newVersion, hash);
    ThreeSteps(g, a, o, n);
    Step(Step(Step(g, a), o), n)
  }

  /** Three steps from the first field agree with the exact sum wrapped once. */
  lemma ThreeSteps(g: Int32, a: Int32, o: Int32, n: Int32)
    ensures Step(Step(Step(g, a), o), n) == Wrap(29791 * g + 961 * a + 31 * o + n)
  {
    WrapInt32(g);
    StepWraps(g, a);
    StepWraps(31 * g + a, o);
    StepWraps(31 * (31 * g + a) + o, n);
  }

  /** Equal changes have equal hash codes, whatever the string hash. */
  lemma HashConsistentWithEquals(c: VersionChange, d: VersionChange, hash: StringHash)
    requires Equals(c, Change(d))
    ensures HashCode(c, hash) == HashCode(d, hash)
  {
  }

  /** String concatenation renders a null reference as "null". */
  function Show(f: Option<string>): string
  {
    match f
    case None => "null"
    case Some(s) => s
  }

  /** `toString`: "VersionChange(group:artifact:old-->new)". */
  function ToString(c: VersionChange): (r: string)
    ensures |r| == 20 + |Show(c.groupId)| + |Show(c.artifactId)| + |Show(c.oldVersion)| + |Show(c.newVersion)|
    ensures r[..14] == "VersionChange(" && r[|r| - 1] == ')'
    ensures r[14..14 + |Show(c.groupId)|] == Show(c.groupId)
  {
    "VersionChange(" + Show(c.groupId) + ":" + Show(c.artifactId) + ":"
      + Show(c.oldVersion) + "-->" + Show(c.newVersion) + ")"
  }

  /** When neither group id contains ':', equal renderings have equal group ids. */
  lemma ToStringRecoversGroup(c: VersionChange, d: VersionChange)
    requires ':' !in Show(c.groupId) && ':' !in Show(d.groupId)
    requires ToString(c) == ToString(d)
    ensures Show(c.groupId) == Show(d.groupId)
  {
    GroupBeforeFirstColon(c);
    GroupBeforeFirstColon(d);
  }

  /** The group id is everything between the opening parenthesis and the first ':'. */
  lemma GroupBeforeFirstColon(c: VersionChange)
    requires ':' !in Show(c.groupId)
    ensures var s := ToString(c)[14..]; IndexOf(s, ':') == |Show(c.groupId)| && s[..IndexOf(s, ':')] == Show(c.groupId)
  {
    var g := Show(c.groupId);
    var s := ToString(c)[14..];
    var rest := Show(c.artifactId) + ":" + Show(c.oldVersion) + "-->" + Show(c.newVersion) + ")";
    assert s == g + ":" + rest;
    assert s[|g|] == ':';
    var i := IndexOf(s, ':');
    assert 0 <= i;
    assert s[..i] == g;
  }

  /** The rendering cannot tell a null field from the string "null". */
  lemma ToStringConflatesNull()
    ensures ToString(VersionChange(None, None, None, None))
         == ToString(VersionChange(Some("null"), Some("null"), Some("null"), Some("null")))
    ensures !Equals(VersionChange(None, None, None, None),
                    Change(VersionChange(Some("null"), Some("null"), Some("null"), Some("null"))))
  {
  }

  /** A rendering with every field present. */
  lemma ToStringExample()
    ensures ToString(VersionChange(Some("org.example"), Some("lib"), Some("1.0"), Some("1.1")))
         == "VersionChange(org.example:lib:1.0-->1.1)"
  {
  }
}
