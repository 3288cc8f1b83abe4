/** Values shared by every component: optional results and results with an error. */
module Outcomes {
  datatype Option<+T> = None | Some(value: T)

  datatype Result<+T, +E> = Ok(value: T) | Err(error: E)
}

/**
 Go strings as sequences of Unicode scalar values. `ByteLen` is Go's `len`, the
 size of the UTF-8 encoding, and `Less` is Go's `<`, which for valid UTF-8 is the
 order of the code points.
 */
module Text {

  function Width(c: char): (n: nat)
  {
    var code := c as int;
    if code < 0x80 then 1 else if code < 0x800 then 2 else if code < 0x1_0000 then 3 else 4
  }

  function ByteLen(s: string): (n: nat)
    ensures n >= |s|
  {
    if s == "" then 0 else Width(s[0]) + ByteLen(s[1..])
  }

  /** `unicode.IsSpace`: the White_Space property. */
  predicate IsSpace(c: char) {
    var code := c as int;
    || 0x09 <= code <= 0x0D || code == 0x20 || code == 0x85 || code == 0xA0
    || code == 0x1680 || 0x2000 <= code <= 0x200A || code == 0x2028 || code == 0x2029
    || code == 0x202F || code == 0x205F || code == 0x3000
  }

  /** `unicode.IsControl`: general category Cc. */
  predicate IsControl(c: char) {
    var code := c as int;
    code < 0x20 || 0x7F <= code <= 0x9F
  }

  function TrimLeft(s: string): (r: string)
    ensures |r| <= |s|
    ensures r != "" ==> !IsSpace(r[0])
  {
    if s != "" && IsSpace(s[0]) then TrimLeft(s[1..]) else s
  }

  function TrimRight(s: string): (r: string)
    ensures r <= s
    ensures r != "" ==> !IsSpace(r[|r| - 1])
  {
    if s != "" && IsSpace(s[|s| - 1]) then TrimRight(s[..|s| - 1]) else s
  }

  /** `strings.TrimSpace`. */
  function TrimSpace(s: string): (r: string)
    ensures r != "" ==> !IsSpace(r[0]) && !IsSpace(r[|r| - 1])
  {
    TrimRight(TrimLeft(s))
  }

  predicate Less(a: string, b: string) {
    if b == "" then false
    else if a == "" then true
    else if a[0] != b[0] then a[0] < b[0]
    else Less(a[1..], b[1..])
  }

  lemma LessTransitive(a: string, b: string, c: string)
    requires Less(a, b) && Less(b, c)
    ensures Less(a, c)
  {
  }

  lemma LessTotal(a: string, b: string)
    ensures !Less(a, a)
    ensures !(Less(a, b) && Less(b, a))
    ensures a == b || Less(a, b) || Less(b, a)
  {
    if a != "" && b != "" && a[0] == b[0] {
      LessTotal(a[1..], b[1..]);
      assert a == [a[0]] + a[1..] && b == [b[0]] + b[1..];
    }
  }

  predicate StrictlySorted(keys: seq<string>) {
    forall i, j :: 0 <= i < j < |keys| ==> Less(keys[i], keys[j])
  }

  ghost function Elements<T>(s: seq<T>): (r: set<T>)
    ensures s == [] <==> r == {}
  {
    var r := set x | x in s;
    assert s != [] ==> s[0] in r;
    r
  }

  /** A least element, found by scanning; `sort` would put it first. */
  lemma LeastExists(keys: set<string>) returns (least: string)
    requires keys != {}
    ensures IsLeast(least, keys)
  {
    var k :| k in keys;
    if keys == {k} {
      least := k;
    } else {
      var rest := keys - {k};
      assert rest != {};
      var m := LeastExists(rest);
      LessTotal(k, m);
      if Less(k, m) {
        least := k;
        forall x | x in keys && x != least ensures Less(least, x) {
          if x != m { LessTransitive(k, m, x); }
        }
      } else {
        least := m;
      }
    }
  }

  ghost predicate IsLeast(least: string, keys: set<string>) {
    least in keys && forall k :: k in keys && k != least ==> Less(least, k)
  }

  ghost function Least(keys: set<string>): (least: string)
    requires keys != {}
    ensures IsLeast(least, keys)
  {
    assert exists m :: IsLeast(m, keys) by {
      var m := LeastExists(keys);
    }
    var least :| IsLeast(least, keys);
    least
  }

  /** The one strictly ascending listing of a finite set of strings. */
  ghost function SortedKeys(keys: set<string>): (r: seq<string>) {
    if keys == {} then []
    else
      var least := Least(keys);
      [least] + SortedKeys(keys - {least})
  }

  lemma {:induction false} SortedKeysAre(keys: set<string>)
    ensures StrictlySorted(SortedKeys(keys)) && |SortedKeys(keys)| == |keys|
    ensures forall k :: k in SortedKeys(keys) <==> k in keys
    ensures Elements(SortedKeys(keys)) == keys
  {
    if keys != {} { SortedKeysAre(keys - {Least(keys)}); }
  }

  /** Sorting cannot depend on the order in which a Go map is ranged over. */
  lemma {:induction false} SortedUnique(a: seq<string>, b: seq<string>)
    requires StrictlySorted(a) && StrictlySorted(b) && Elements(a) == Elements(b)
    ensures a == b
  {
    if a != [] {
      assert a[0] in Elements(b);
      assert b[0] in Elements(a);
      LessTotal(a[0], b[0]);
      assert a[0] == b[0];
      assert a[0] !in a[1..] && b[0] !in b[1..] by { LessTotal(a[0], a[0]); }
      assert Elements(a[1..]) == Elements(a) - {a[0]};
      assert Elements(b[1..]) == Elements(b) - {b[0]};
      SortedUnique(a[1..], b[1..]);
      assert a == [a[0]] + a[1..] && b == [b[0]] + b[1..];
    }
  }

  /** Insertion of one more key into an ascending list, as any comparison sort ends up doing. */
  method InsertSorted(sorted: seq<string>, key: string) returns (r: seq<string>)
    requires StrictlySorted(sorted) && key !in sorted
    ensures StrictlySorted(r) && Elements(r) == Elements(sorted) + {key}
    ensures |r| == |sorted| + 1
  {
    var i := 0;
    while i < |sorted| && Less(sorted[i], key)
      invariant 0 <= i <= |sorted|
      invariant forall j :: 0 <= j < i ==> Less(sorted[j], key)
    {
      i := i + 1;
    }
    r := sorted[..i] + [key] + sorted[i..];
    forall j | i <= j < |sorted| ensures Less(key, sorted[j]) {
      LessTotal(sorted[i], key);
      if i < j { LessTransitive(key, sorted[i], sorted[j]); }
    }
    assert forall j :: i < j < |r| ==> r[j] == sorted[j - 1];
  }

  /** Collecting the keys of a map and sorting them: the result is `SortedKeys`. */
  method SortKeys(keys: set<string>) returns (r: seq<string>)
    ensures r == SortedKeys(keys)
  {
    r := [];
    var rest := keys;
    while rest != {}
      invariant rest <= keys
      invariant StrictlySorted(r) && Elements(r) == keys - rest
      decreases rest
    {
      var k :| k in rest;
      assert k !in Elements(r);
      r := InsertSorted(r, k);
      rest := rest - {k};
    }
    SortedKeysAre(keys);
    SortedUnique(r, SortedKeys(keys));
  }
}
