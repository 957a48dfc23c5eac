/**
 The orders maps are walked in and mounts are grafted in: byte order on names,
 and keys that put a number or a path before the name, least first.
 */
module Order {
  /** Byte order on strings. */
  predicate AtMost(left: string, right: string) {
    left == "" || (right != "" && (left[0] < right[0] || (left[0] == right[0] && AtMost(left[1..], right[1..]))))
  }

  lemma {:induction false} AtMostTotal(left: string, right: string)
    ensures AtMost(left, right) || AtMost(right, left)
  {
    if left != "" && right != "" { AtMostTotal(left[1..], right[1..]); }
  }

  lemma {:induction false} AtMostAntisymmetric(left: string, right: string)
    requires AtMost(left, right) && AtMost(right, left)
    ensures left == right
  {
    if left != "" && right != "" {
      AtMostAntisymmetric(left[1..], right[1..]);
      assert left == [left[0]] + left[1..] && right == [right[0]] + right[1..];
    }
  }

  lemma {:induction false} AtMostTransitive(a: string, b: string, c: string)
    requires AtMost(a, b) && AtMost(b, c)
    ensures AtMost(a, c)
  {
    if a != "" && a[0] == b[0] && b[0] == c[0] { AtMostTransitive(a[1..], b[1..], c[1..]); }
  }

  /** The order is that of the first character that differs, one that runs out coming first. */
  lemma {:induction false} FirstDifference(left: string, right: string, k: nat)
    requires k <= |left| && k <= |right| && left[..k] == right[..k]
    requires k < |left| && k < |right| ==> left[k] != right[k]
    ensures AtMost(left, right) <==> k == |left| || (k < |right| && left[k] < right[k])
    decreases k
  {
    if k > 0 {
      assert left[0] == left[..k][0] == right[..k][0] == right[0];
      assert left[1..][..k - 1] == left[..k][1..] == right[..k][1..] == right[1..][..k - 1];
      FirstDifference(left[1..], right[1..], k - 1);
    }
  }

  /** Compared by number, then by text, then by name. */
  datatype Key = Key(rank: int, text: string, name: string)

  predicate KeyAtMost(left: Key, right: Key) {
    || left.rank < right.rank
    || (left.rank == right.rank &&
        (if left.text == right.text then AtMost(left.name, right.name) else AtMost(left.text, right.text)))
  }

  lemma KeyAtMostTotal(left: Key, right: Key)
    ensures KeyAtMost(left, right) || KeyAtMost(right, left)
  {
    AtMostTotal(left.text, right.text);
    AtMostTotal(left.name, right.name);
  }

  lemma KeyAtMostAntisymmetric(left: Key, right: Key)
    requires KeyAtMost(left, right) && KeyAtMost(right, left)
    ensures left == right
  {
    if left.text == right.text {
      AtMostAntisymmetric(left.name, right.name);
    } else {
      AtMostAntisymmetric(left.text, right.text);
    }
  }

  lemma KeyAtMostTransitive(a: Key, b: Key, c: Key)
    requires KeyAtMost(a, b) && KeyAtMost(b, c)
    ensures KeyAtMost(a, c)
  {
    if a.rank == b.rank == c.rank {
      if a.text == b.text == c.text {
        AtMostTransitive(a.name, b.name, c.name);
      } else if a.text != b.text && b.text != c.text {
        AtMostTransitive(a.text, b.text, c.text);
        if a.text == c.text { AtMostAntisymmetric(a.text, b.text); }
      }
    }
  }

  ghost predicate Distinct<T>(items: seq<T>) {
    forall i, j | 0 <= i < j < |items| :: items[i] != items[j]
  }

  /** `key` orders `names`, telling each from the others. */
  ghost predicate Keyed(names: set<string>, key: string -> Key) {
    forall name | name in names :: key(name).name == name
  }

  lemma {:induction false} Least(names: set<string>, key: string -> Key) returns (least: string)
    requires names != {}
    ensures least in names && forall name | name in names :: KeyAtMost(key(least), key(name))
  {
    var some :| some in names;
    least := some;
    KeyAtMostTotal(key(some), key(some));
    if names != {some} {
      var rest := names - {some};
      assert names == rest + {some} && rest != {};
      least := Least(rest, key);
      KeyAtMostTotal(key(some), key(least));
      if KeyAtMost(key(some), key(least)) {
        forall name | name in rest ensures KeyAtMost(key(some), key(name)) {
          KeyAtMostTransitive(key(some), key(least), key(name));
        }
        least := some;
      }
    }
  }

  predicate IsLeast(names: set<string>, key: string -> Key, least: string) {
    least in names && forall name | name in names :: KeyAtMost(key(least), key(name))
  }

  lemma OneLeast(names: set<string>, key: string -> Key)
    requires Keyed(names, key) && names != {}
    ensures exists least :: IsLeast(names, key, least)
    ensures forall a, b | IsLeast(names, key, a) && IsLeast(names, key, b) :: a == b
  {
    var least := Least(names, key);
    assert IsLeast(names, key, least);
    forall a, b | IsLeast(names, key, a) && IsLeast(names, key, b) ensures a == b {
      KeyAtMostAntisymmetric(key(a), key(b));
    }
  }

  /** `names` by their keys, least first. */
  function SortedBy(names: set<string>, key: string -> Key): (sorted: seq<string>)
    requires Keyed(names, key)
    ensures forall name :: name in sorted <==> name in names
    ensures Distinct(sorted)
    ensures forall i, j | 0 <= i < j < |sorted| :: KeyAtMost(key(sorted[i]), key(sorted[j]))
  {
    if names == {} then []
    else
      OneLeast(names, key);
      var least :| least in names && IsLeast(names, key, least);
      [least] + SortedBy(names - {least}, key)
  }
}
