/**
 * The nested-path builder of the CSV parser (setNestedValue): a dot path such
 * as `name.firstName` is split on `.`, the object tree is walked from the root,
 * every missing or non-object node on the way is replaced by a fresh empty
 * object, and the value is stored under the last key; a last key spelled `age`
 * stores parseInt(value, 10) || 0 instead of the string.
 */
module NestedRecord {
  import opened JsBuiltins

  /** A value in a record. The parser only ever stores strings, numbers and plain objects. */
  datatype Val = Str(s: string) | Num(n: int) | Obj(fields: map<string, Val>)

  /** The own properties of one plain object. */
  type Fields = map<string, Val>

  /** parseInt(value, 10) || 0: a string without a leading number (NaN) gives 0. */
  function AgeValue(value: string): (r: int)
    ensures r != 0 ==> ParseInt(value) == Some(r)
  {
    match ParseInt(value)
    case None => 0
    case Some(n) => n
  }

  /** The age of a decimal number, possibly followed by text that does not start with a digit, is that number. */
  lemma {:induction false} AgeOfNumber(n: int, rest: string)
    requires rest == [] || !IsDigit(rest[0])
    ensures AgeValue(ShowInt(n) + rest) == n
  {
    ParseIntOfShowInt(n, rest);
  }

  /** A value with no digit in it at all gives age 0. */
  lemma {:induction false} AgeOfNonNumeric(value: string)
    requires forall k :: 0 <= k < |value| ==> !IsDigit(value[k])
    ensures AgeValue(value) == 0
  {
    ParseIntNaN(value);
  }

  /** What is stored under the last key of a path. */
  function LeafValue(key: string, value: string): Val {
    if key == "age" then Num(AgeValue(value)) else Str(value)
  }

  /** The object to descend into: the existing object under `key`, or a fresh empty one. */
  function Child(m: Fields, key: string): (r: Fields)
    ensures r != map[] ==> key in m && m[key] == Obj(r)
  {
    if key in m && m[key].Obj? then m[key].fields else map[]
  }

  /**
   * The object `m` after setting `keys` (a dot path already split) to `value`.
   * Only the first key's entry changes at this level.
   */
  function Assign(m: Fields, keys: seq<string>, value: string): (r: Fields)
    requires |keys| >= 1
    ensures r.Keys == m.Keys + {keys[0]}
    decreases |keys|
  {
    if |keys| == 1 then m[keys[0] := LeafValue(keys[0], value)]
    else m[keys[0] := Obj(Assign(Child(m, keys[0]), keys[1..], value))]
  }

  /** Only the first key's entry changes at the top level. */
  lemma {:induction false} AssignKeepsOthers(m: Fields, keys: seq<string>, value: string, k: string)
    requires |keys| >= 1 && k in m && k != keys[0]
    ensures Assign(m, keys, value)[k] == m[k]
  {
  }

  /** Following a path of property names from an object; None stands for undefined. */
  function Lookup(m: Fields, path: seq<string>): Option<Val>
    requires |path| >= 1
    decreases |path|
  {
    if path[0] !in m then None
    else if |path| == 1 then Some(m[path[0]])
    else match m[path[0]]
      case Obj(f) => Lookup(f, path[1..])
      case _ => None
  }

  /** The object found at a path, or an empty one when there is none. */
  function ObjectAt(m: Fields, path: seq<string>): Fields
    requires |path| >= 1
  {
    match Lookup(m, path)
    case Some(Obj(f)) => f
    case _ => map[]
  }

  /** `obj[key]` on a plain object; None stands for undefined. */
  function Get(m: Fields, key: string): Option<Val> {
    if key in m then Some(m[key]) else None
  }

  /** Optional chaining `v?.key`: only an object has the named property. */
  function Member(v: Option<Val>, key: string): Option<Val> {
    match v
    case Some(Obj(f)) => Get(f, key)
    case _ => None
  }

  /** JavaScript truthiness: undefined, the empty string and 0 are falsy, every object is truthy. */
  predicate Truthy(v: Option<Val>) {
    match v
    case None => false
    case Some(Str(s)) => s != ""
    case Some(Num(n)) => n != 0
    case Some(Obj(_)) => true
  }

  /** Reading `obj.a?.b` is following the two-key path `[a, b]`. */
  lemma {:induction false} MemberIsLookup(m: Fields, a: string, b: string)
    ensures Member(Get(m, a), b) == Lookup(m, [a, b])
  {
    assert [a, b][1..] == [b];
  }

  /** The two paths part ways: neither is a prefix of the other. */
  predicate Diverge(p: seq<string>, q: seq<string>)
    decreases |p|
  {
    |p| >= 1 && |q| >= 1 && (p[0] != q[0] || Diverge(p[1..], q[1..]))
  }

  /** After the assignment, the path leads to the stored value. */
  lemma {:induction false} AssignReachesLeaf(m: Fields, keys: seq<string>, value: string)
    requires |keys| >= 1
    ensures Lookup(Assign(m, keys, value), keys) == Some(LeafValue(keys[|keys| - 1], value))
    decreases |keys|
  {
    if |keys| > 1 {
      AssignReachesLeaf(Child(m, keys[0]), keys[1..], value);
    }
  }

  /**
   * Every proper prefix of the path leads to an object: the one that was there,
   * updated below, when the node was already an object, and otherwise a fresh one.
   */
  lemma {:induction false} AssignPrefix(m: Fields, keys: seq<string>, value: string, i: nat)
    requires 1 <= i < |keys|
    ensures Lookup(Assign(m, keys, value), keys[..i]) == Some(Obj(Assign(ObjectAt(m, keys[..i]), keys[i..], value)))
    decreases i
  {
    var k := keys[0];
    var r := Assign(m, keys, value);
    if i == 1 {
      assert keys[..1] == [k];
    } else {
      var c := Child(m, k);
      var p, q := keys[..i], keys[1..];
      AssignPrefix(c, q, value, i - 1);
      assert p[1..] == q[..i - 1];
      assert q[i - 1..] == keys[i..];
      assert p[0] == k;
      var below := Assign(c, q, value);
      assert r == m[k := Obj(below)];
      assert Lookup(r, p) == Lookup(below, q[..i - 1]);
      if !(k in m && m[k].Obj?) {
        assert Lookup(m, p) == None;
        assert Lookup(c, q[..i - 1]) == None;
      } else {
        assert Lookup(m, p) == Lookup(c, q[..i - 1]);
      }
      assert ObjectAt(m, p) == ObjectAt(c, q[..i - 1]);
    }
  }

  /** An object already on the path is reused: its other properties survive. */
  lemma {:induction false} AssignReusesObject(m: Fields, keys: seq<string>, value: string, i: nat, f: Fields)
    requires 1 <= i < |keys|
    requires Lookup(m, keys[..i]) == Some(Obj(f))
    ensures Lookup(Assign(m, keys, value), keys[..i]).Some?
    ensures var node := Lookup(Assign(m, keys, value), keys[..i]).value;
            node.Obj? && node.fields.Keys == f.Keys + {keys[i]} &&
            forall k :: k in f && k != keys[i] ==> node.fields[k] == f[k]
  {
    AssignPrefix(m, keys, value, i);
  }

  /** A non-object on the path is replaced: the new node holds the rest of the path only. */
  lemma {:induction false} AssignReplacesNonObject(m: Fields, keys: seq<string>, value: string, i: nat)
    requires 1 <= i < |keys|
    requires !(Lookup(m, keys[..i]).Some? && Lookup(m, keys[..i]).value.Obj?)
    ensures Lookup(Assign(m, keys, value), keys[..i]) == Some(Obj(Assign(map[], keys[i..], value)))
  {
    AssignPrefix(m, keys, value, i);
  }

  /** Every path that parts ways with the assigned one reads as before. */
  lemma {:induction false} AssignOffPath(m: Fields, keys: seq<string>, value: string, p: seq<string>)
    requires |keys| >= 1 && Diverge(p, keys)
    ensures Lookup(Assign(m, keys, value), p) == Lookup(m, p)
    decreases |p|
  {
    if p[0] == keys[0] {
      var k := keys[0];
      var c := Child(m, k);
      AssignOffPath(c, keys[1..], value, p[1..]);
      if !(k in m && m[k].Obj?) {
        assert Lookup(c, p[1..]) == None;
      }
    }
  }

  /** Nothing lies below the stored value. */
  lemma {:induction false} AssignLeavesNothingBelow(m: Fields, keys: seq<string>, value: string, more: seq<string>)
    requires |keys| >= 1 && |more| >= 1
    ensures Lookup(Assign(m, keys, value), keys + more) == None
    decreases |keys|
  {
    var k := keys[0];
    assert (keys + more)[0] == k;
    if |keys| > 1 {
      assert (keys + more)[1..] == keys[1..] + more;
      AssignLeavesNothingBelow(Child(m, k), keys[1..], value, more);
    }
  }

  /** The position of the current node: the object passed through and the key taken from it. */
  datatype Frame = Frame(node: Fields, key: string)

  /**
   * Puts a changed node back under the objects above it (innermost last):
   * what the shared references of the walk do implicitly.
   */
  function Plug(above: seq<Frame>, node: Fields): Fields
    decreases |above|
  {
    if above == [] then node
    else
      var f := above[|above| - 1];
      Plug(above[..|above| - 1], f.node[f.key := Obj(node)])
  }

  /** The object a row is built into (`record` in the parser), changed in place. */
  class RecordObject {
    var fields: Fields

    constructor ()
      ensures fields == map[]
    {
      fields := map[];
    }

    /**
     * setNestedValue(this, path, value). `temp` is the node the walk has reached and
     * `above` the nodes passed on the way down, from the root.
     */
    method SetNestedValue(path: string, value: string)
      modifies this
      ensures fields == Assign(old(fields), SplitOn(path, '.'), value)
    {
      var keys := SplitOn(path, '.');
      ghost var target := Assign(fields, keys, value);
      var temp := fields;
      var above: seq<Frame> := [];
      var keyIndex := 0;
      while keyIndex < |keys|
        invariant 0 <= keyIndex <= |keys|
        invariant keyIndex < |keys| ==> Plug(above, Assign(temp, keys[keyIndex..], value)) == target
        invariant keyIndex == |keys| ==> Plug(above, temp) == target
      {
        var key := keys[keyIndex];
        if keyIndex == |keys| - 1 {
          assert keys[keyIndex..] == [key];
          temp := temp[key := LeafValue(key, value)];
        } else {
          assert keys[keyIndex..][1..] == keys[keyIndex + 1..];
          ghost var inner := Assign(Child(temp, key), keys[keyIndex + 1..], value);
          ghost var before := temp;
          var parent := temp;
          if !(key in temp && temp[key].Obj?) {
            parent := temp[key := Obj(map[])];
          }
          assert parent[key := Obj(inner)] == before[key := Obj(inner)];
          ghost var outer := above;
          above := above + [Frame(parent, key)];
          temp := parent[key].fields;
          assert above[..|above| - 1] == outer;
          assert Plug(above, inner) == Plug(outer, before[key := Obj(inner)]);
        }
        keyIndex := keyIndex + 1;
      }
      fields := Plug(above, temp);
    }
  }
}
