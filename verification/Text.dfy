/** Code-point order on strings, and the sorted enumeration of a finite set of strings. */
module Text {

  /** Python's `a < b` on `str`: the first differing code point decides, a proper prefix is less. */
  predicate Less(a: string, b: string) {
    b != [] && (a == [] || a[0] < b[0] || (a[0] == b[0] && Less(a[1..], b[1..])))
  }

  predicate AtMost(a: string, b: string) {
    a == b || Less(a, b)
  }

  lemma {:induction false} LessIrreflexive(a: string)
    ensures !Less(a, a)
  {
    if a != [] {
      LessIrreflexive(a[1..]);
    }
  }

  lemma {:induction false} LessTransitive(a: string, b: string, c: string)
    requires Less(a, b) && Less(b, c)
    ensures Less(a, c)
  {
    if a != [] && a[0] == b[0] && b[0] == c[0] {
      LessTransitive(a[1..], b[1..], c[1..]);
    }
  }

  lemma {:induction false} LessTotal(a: string, b: string)
    ensures a == b || Less(a, b) || Less(b, a)
  {
    if a != [] && b != [] && a[0] == b[0] {
      LessTotal(a[1..], b[1..]);
      if a[1..] == b[1..] {
        assert a == [a[0]] + a[1..] && b == [b[0]] + b[1..];
      }
    }
  }

  /** The first difference decides, and a proper prefix comes first. */
  lemma {:induction false} LessExactly(a: string, b: string)
    ensures Less(a, b) <==> exists k: nat :: k < |b| && k <= |a| && a[..k] == b[..k] && (k == |a| || a[k] < b[k])
  {
    if a != [] && b != [] && a[0] == b[0] {
      LessExactly(a[1..], b[1..]);
      var s, t := a[1..], b[1..];
      if k: nat :| k < |t| && k <= |s| && s[..k] == t[..k] && (k == |s| || s[k] < t[k]) {
        assert a[..k + 1] == [a[0]] + a[1..][..k] && b[..k + 1] == [b[0]] + b[1..][..k];
      }
      if k: nat :| k < |b| && k <= |a| && a[..k] == b[..k] && (k == |a| || a[k] < b[k]) {
        assert k > 0;
        assert a[1..][..k - 1] == a[..k][1..] && b[1..][..k - 1] == b[..k][1..];
      }
    } else if a == [] || b == [] || a[0] < b[0] {
      assert a[..0] == b[..0];
    } else {
      assert forall k: nat | 0 < k <= |a| && k < |b| :: a[..k][0] == a[0] && b[..k][0] == b[0];
    }
  }

  lemma LessAsymmetric(a: string, b: string)
    requires Less(a, b)
    ensures a != b && !Less(b, a)
  {
    LessIrreflexive(a);
    if Less(b, a) {
      LessTransitive(a, b, a);
    }
  }

  ghost predicate StrictlyAscending(keys: seq<string>) {
    forall i, j | 0 <= i < j < |keys| :: Less(keys[i], keys[j])
  }

  ghost predicate IsLeast(k: string, keys: set<string>) {
    k in keys && forall j | j in keys :: AtMost(k, j)
  }

  lemma {:induction false} LeastExists(keys: set<string>)
    requires keys != {}
    ensures exists k :: IsLeast(k, keys)
    decreases |keys|
  {
    var k :| k in keys;
    var rest := keys - {k};
    if rest == {} {
      assert keys == {k};
      assert IsLeast(k, keys);
    } else {
      LeastExists(rest);
      var m :| IsLeast(m, rest);
      LessTotal(k, m);
      if Less(k, m) {
        forall j | j in keys ensures AtMost(k, j) {
          if j != k && j != m {
            assert AtMost(m, j);
            LessTransitive(k, m, j);
          }
        }
        assert IsLeast(k, keys);
      } else {
        assert IsLeast(m, keys);
      }
    }
  }

  lemma LeastUnique(k: string, m: string, keys: set<string>)
    requires IsLeast(k, keys) && IsLeast(m, keys)
    ensures k == m
  {
    if k != m {
      LessAsymmetric(k, m);
    }
  }

  /** The least string of a nonempty set, as `min` and `sorted(...)[0]` find it. */
  function Least(keys: set<string>): (k: string)
    requires keys != {}
    ensures IsLeast(k, keys)
  {
    LeastExists(keys);
    assert forall k, m | IsLeast(k, keys) && IsLeast(m, keys) :: k == m by {
      forall k, m | IsLeast(k, keys) && IsLeast(m, keys) ensures k == m { LeastUnique(k, m, keys); }
    }
    assert forall k | k in keys && (forall j | j in keys :: AtMost(k, j)) :: IsLeast(k, keys);
    var k :| k in keys && forall j | j in keys :: AtMost(k, j);
    k
  }

  /** `sorted(keys)` for a set of strings. */
  function Sorted(keys: set<string>): (r: seq<string>)
    ensures StrictlyAscending(r)
    ensures forall k :: k in r <==> k in keys
    decreases |keys|
  {
    if keys == {} then [] else
    var k := Least(keys);
    var rest := Sorted(keys - {k});
    assert forall j | j in rest :: Less(k, j);
    [k] + rest
  }

  /** Two strictly ascending enumerations of the same strings are the same sequence. */
  lemma {:induction false} AscendingUnique(a: seq<string>, b: seq<string>)
    requires StrictlyAscending(a) && StrictlyAscending(b)
    requires forall k :: k in a <==> k in b
    ensures a == b
  {
    assert a == [] || a[0] in b;
    assert b == [] || b[0] in a;
    if a != [] {
      HeadIsLeast(a);
      HeadIsLeast(b);
      assert a[0] in b && b[0] in a;
      if a[0] != b[0] {
        LessAsymmetric(a[0], b[0]);
      }
      TailMembers(a);
      TailMembers(b);
      AscendingUnique(a[1..], b[1..]);
    }
  }

  lemma HeadIsLeast(a: seq<string>)
    requires StrictlyAscending(a) && a != []
    ensures forall k | k in a :: k == a[0] || Less(a[0], k)
  {
  }

  lemma TailMembers(a: seq<string>)
    requires StrictlyAscending(a) && a != []
    ensures StrictlyAscending(a[1..])
    ensures forall k :: k in a[1..] <==> k in a && k != a[0]
  {
    forall k | k in a[1..] ensures k != a[0] {
      var i :| 0 <= i < |a[1..]| && a[1..][i] == k;
      assert Less(a[0], a[i + 1]);
      LessAsymmetric(a[0], k);
    }
  }

  predicate NoRepeats(keys: seq<string>) {
    forall i, j | 0 <= i < j < |keys| :: keys[i] != keys[j]
  }

  lemma AscendingHasNoRepeats(keys: seq<string>)
    requires StrictlyAscending(keys)
    ensures NoRepeats(keys)
  {
    forall i, j | 0 <= i < j < |keys| ensures keys[i] != keys[j] {
      LessAsymmetric(keys[i], keys[j]);
    }
  }

  lemma NothingMissing(a: set<string>, b: set<string>)
    ensures a - b == {} <==> a <= b
  {
    if a - b == {} {
      forall x | x in a ensures x in b {
        assert x !in a - b;
      }
    }
  }

  // ---------------------------------------------------------------- whitespace

  /** The characters `str.splitlines` breaks at. */
  predicate IsBreak(c: char) {
    c == '\n' || c == '\r' || c == 0x0B as char || c == 0x0C as char || c == 0x1C as char || c == 0x1D as char
    || c == 0x1E as char || c == 0x85 as char || c == 0x2028 as char || c == 0x2029 as char
  }

  /** `str.isspace` on one character. */
  predicate IsSpace(c: char) {
    IsBreak(c) || c == '\t' || c == ' ' || c == 0x1F as char || c == 0xA0 as char || c == 0x1680 as char
    || 0x2000 as char <= c <= 0x200A as char || c == 0x202F as char || c == 0x205F as char || c == 0x3000 as char
  }

  /** `not s.strip()` */
  predicate Blank(s: string) {
    forall c | c in s :: IsSpace(c)
  }
}
