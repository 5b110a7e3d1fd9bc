/**
  One key/value triple (`KeyValueInstance`): its display form and the
  comparator on its primary key (category, key).
 */
module Instances {
  import opened Lexicographic

  datatype Option<T> = None | Some(value: T)

  /** A (category, key, value) triple.  The record puts no bound on the
      lengths of its fields. */
  datatype Instance = Instance(category: string, key: string, value: string)

  /** The readable form `[category->key=value]`. */
  function ToString(kv: Instance): (r: string)
    ensures |r| == |kv.category| + |kv.key| + |kv.value| + 5
    ensures r[0] == '[' && r[|r| - 1] == ']'
  {
    "[" + kv.category + "->" + kv.key + "=" + kv.value + "]"
  }

  /** Index of the first `c` in `s`, or `|s|` when there is none. */
  function Find(s: string, c: char): (i: nat)
    ensures i <= |s|
    ensures i < |s| ==> s[i] == c
    ensures forall j :: 0 <= j < i ==> s[j] != c
  {
    if |s| == 0 then 0
    else if s[0] == c then 0
    else 1 + Find(s[1..], c)
  }

  /** Reads a display form back: the category runs up to the first `->`,
      the key up to the next `=`, and the value to the closing bracket. */
  function Parse(s: string): Option<Instance> {
    if |s| < 2 || s[0] != '[' || s[|s| - 1] != ']' then None
    else ParseBody(s[1..|s| - 1])
  }

  /** `s` holds the two characters `->` somewhere. */
  predicate HasArrow(s: string) {
    exists i | 0 <= i < |s| - 1 :: s[i] == '-' && s[i + 1] == '>'
  }

  /** Index of the first `->` in `s`, or `|s|` when there is none. */
  function FindArrow(s: string): (i: nat)
    ensures i <= |s|
    ensures i < |s| ==> i + 1 < |s| && s[i] == '-' && s[i + 1] == '>'
    ensures i == |s| <==> !HasArrow(s)
    ensures forall j :: 0 <= j < i && j + 1 < |s| ==> !(s[j] == '-' && s[j + 1] == '>')
  {
    if |s| < 2 then |s|
    else if s[0] == '-' && s[1] == '>' then 0
    else
      var i := 1 + FindArrow(s[1..]);
      assert forall j :: 0 < j < |s| ==> s[j] == s[1..][j - 1];
      i
  }

  /** Reads `category->key=value`. */
  function ParseBody(inner: string): Option<Instance> {
    var i := FindArrow(inner);
    if i == |inner| then None
    else ParseKeyValue(inner[..i], inner[i + 2..])
  }

  /** Reads `key=value` under an already known category. */
  function ParseKeyValue(category: string, rest: string): Option<Instance> {
    var j := Find(rest, '=');
    if j == |rest| then None
    else Some(Instance(category, rest[..j], rest[j + 1..]))
  }

  /** The first `c` in `p + rest` is the one that starts `rest` when `p`
      holds none. */
  lemma {:induction false} FindAfter(p: string, rest: string, c: char)
    requires c !in p && |rest| > 0 && rest[0] == c
    ensures Find(p + rest, c) == |p|
    decreases |p|
  {
    if |p| > 0 {
      assert (p + rest)[1..] == p[1..] + rest;
      FindAfter(p[1..], rest, c);
    }
  }

  /** The first `->` in `p + rest` is the one that starts `rest` when `p`
      holds none. */
  lemma {:induction false} FindArrowAfter(p: string, rest: string)
    requires !HasArrow(p) && |rest| >= 2 && rest[0] == '-' && rest[1] == '>'
    ensures FindArrow(p + rest) == |p|
    decreases |p|
  {
    if |p| > 0 {
      assert (p + rest)[1..] == p[1..] + rest;
      FindArrowAfter(p[1..], rest);
    }
  }

  /** `key=value` with no `=` in the key splits back at that `=`. */
  lemma ParseKeyValueJoin(category: string, key: string, value: string)
    requires '=' !in key
    ensures ParseKeyValue(category, key + (['='] + value)) == Some(Instance(category, key, value))
  {
    var rest := key + (['='] + value);
    FindAfter(key, ['='] + value, '=');
    assert rest[..|key|] == key;
    assert rest[|key| + 1..] == value;
  }

  /** `category->key=value` splits back into its three fields. */
  lemma ParseBodyJoin(kv: Instance)
    requires !HasArrow(kv.category) && '=' !in kv.key
    ensures ParseBody(kv.category + (['-', '>'] + (kv.key + (['='] + kv.value)))) == Some(kv)
  {
    var rest := kv.key + (['='] + kv.value);
    var inner := kv.category + (['-', '>'] + rest);
    FindArrowAfter(kv.category, ['-', '>'] + rest);
    assert inner[..|kv.category|] == kv.category;
    assert inner[|kv.category| + 2..] == rest;
    ParseKeyValueJoin(kv.category, kv.key, kv.value);
  }

  /** The display form is unambiguous as long as the category holds no `->`
      and the key holds no `=`: the triple can be read back from it. */
  lemma ParseToString(kv: Instance)
    requires !HasArrow(kv.category) && '=' !in kv.key
    ensures Parse(ToString(kv)) == Some(kv)
  {
    var s := ToString(kv);
    var inner := kv.category + (['-', '>'] + (kv.key + (['='] + kv.value)));
    assert s == ['['] + inner + [']'];
    assert s[1..|s| - 1] == inner;
    ParseBodyJoin(kv);
  }

  /** Category and key agree; the value plays no part. */
  predicate SameKey(a: Instance, b: Instance) {
    a.category == b.category && a.key == b.key
  }

  /** Order on the primary key: category first, key second. */
  ghost predicate KeyLess(a: Instance, b: Instance) {
    || LexLess(a.category, b.category)
    || (a.category == b.category && LexLess(a.key, b.key))
  }

  /** `compareKey`: the sign of the comparison of (category, key), with the
      value ignored. */
  function CompareKey(a: Instance, b: Instance): (r: int)
    ensures -1 <= r <= 1
    ensures r == 0 <==> SameKey(a, b)
    ensures a.category != b.category ==> r == Strcmp(a.category, b.category)
  {
    var result := Strcmp(a.category, b.category);
    if result != 0 then result else Strcmp(a.key, b.key)
  }

  /** `compareKey` reports "smaller" exactly when (category, key) comes first
      in dictionary order. */
  lemma CompareKeyNegativeIffKeyLess(a: Instance, b: Instance)
    ensures CompareKey(a, b) < 0 <==> KeyLess(a, b)
  {
    StrcmpNegativeIffLexLess(a.category, b.category);
    StrcmpNegativeIffLexLess(a.key, b.key);
  }

  /** Two triples that differ only in their values compare exactly as their
      keys do. */
  lemma CompareKeyIgnoresValue(a: Instance, b: Instance, va: string, vb: string)
    ensures CompareKey(a.(value := va), b.(value := vb)) == CompareKey(a, b)
  {
  }

  /** Swapping the arguments flips the sign; comparing a triple with itself
      gives 0. */
  lemma CompareKeyAntisymmetric(a: Instance, b: Instance)
    ensures CompareKey(a, b) == -CompareKey(b, a)
    ensures CompareKey(a, a) == 0
  {
    StrcmpAntisymmetric(a.category, b.category);
    StrcmpAntisymmetric(a.key, b.key);
  }

  /** "Sorts before" on the primary key is transitive. */
  lemma CompareKeyTransitive(a: Instance, b: Instance, c: Instance)
    requires CompareKey(a, b) < 0 && CompareKey(b, c) < 0
    ensures CompareKey(a, c) < 0
  {
    if a.category != b.category && b.category != c.category {
      StrcmpTransitive(a.category, b.category, c.category);
    } else if a.category == b.category && b.category == c.category {
      StrcmpTransitive(a.key, b.key, c.key);
    }
  }
}
