/** std::string's order, and lists sorted by it. */
module Strings {

  predicate Less(a: string, b: string) {
    if b == "" then false
    else if a == "" then true
    else if a[0] != b[0] then a[0] < b[0]
    else Less(a[1..], b[1..])
  }

  lemma {:induction false} LessTotal(a: string, b: string)
    ensures a == b || Less(a, b) || Less(b, a)
    ensures !(Less(a, b) && Less(b, a))
    ensures !Less(a, a)
  {
    if a != "" {
      LessTotal(a[1..], if b == "" then "" else b[1..]);
      if b != "" && a[0] == b[0] && a[1..] == b[1..] {
        assert a == [a[0]] + a[1..] && b == [b[0]] + b[1..];
      }
    }
  }

  lemma {:induction false} LessTransitive(a: string, b: string, c: string)
    requires Less(a, b) && Less(b, c)
    ensures Less(a, c)
  {
    if a != "" && a[0] == b[0] && b[0] == c[0] {
      LessTransitive(a[1..], b[1..], c[1..]);
    }
  }

  /** The texts agree up to i; there the first one ends or has the smaller character. */
  ghost predicate BeforeAt(a: string, b: string, i: nat) {
    i <= |a| && i < |b| && a[..i] == b[..i] && (i < |a| ==> a[i] < b[i])
  }

  ghost predicate Before(a: string, b: string) {
    exists i: nat :: BeforeAt(a, b, i)
  }

  lemma {:induction false} LessIff(a: string, b: string)
    ensures Less(a, b) <==> Before(a, b)
  {
    if b != "" && a == "" {
      assert BeforeAt(a, b, 0);
    } else if b != "" && a[0] < b[0] {
      assert BeforeAt(a, b, 0);
    } else if b != "" && a[0] == b[0] {
      LessIff(a[1..], b[1..]);
      if Less(a, b) {
        var i: nat :| BeforeAt(a[1..], b[1..], i);
        LaterAt(a, b, i);
      }
      if i: nat :| BeforeAt(a, b, i) {
        LaterAt(a, b, i - 1);
      }
    }
  }

  lemma LaterAt(a: string, b: string, i: nat)
    requires a != "" && b != "" && a[0] == b[0]
    ensures BeforeAt(a, b, i + 1) <==> BeforeAt(a[1..], b[1..], i)
  {
    if i < |a| && i < |b| {
      assert a[..i + 1] == [a[0]] + a[1..][..i] && b[..i + 1] == [b[0]] + b[1..][..i];
      assert a[1..][..i] == a[..i + 1][1..] && b[1..][..i] == b[..i + 1][1..];
    }
  }

  predicate Ascending(s: seq<string>) {
    forall i, j :: 0 <= i < j < |s| ==> Less(s[i], s[j])
  }

  function Place(s: seq<string>, x: string): seq<string> {
    if s == [] then [x]
    else if Less(s[0], x) then [s[0]] + Place(s[1..], x)
    else [x] + s
  }

  lemma {:induction false} PlaceHas(s: seq<string>, x: string)
    ensures forall y :: y in Place(s, x) <==> y in s || y == x
  {
    if s != [] {
      PlaceHas(s[1..], x);
    }
  }

  lemma {:induction false} PlaceAscending(s: seq<string>, x: string)
    requires Ascending(s) && x !in s
    ensures Ascending(Place(s, x))
  {
    if s != [] {
      LessTotal(s[0], x);
      if Less(s[0], x) {
        PlaceAscending(s[1..], x);
        PlaceHas(s[1..], x);
        var p := Place(s[1..], x);
        forall j | 0 <= j < |p| ensures Less(s[0], p[j]) {
          assert p[j] in s[1..] || p[j] == x;
        }
      } else {
        forall j | 0 <= j < |s| ensures Less(x, s[j]) {
          if j > 0 {
            LessTransitive(x, s[0], s[j]);
          }
        }
      }
    }
  }

  /** An ascending list is determined by what it holds. */
  lemma {:induction false} AscendingUnique(s: seq<string>, t: seq<string>)
    requires Ascending(s) && Ascending(t)
    requires forall x :: x in s <==> x in t
    ensures s == t
  {
    assert t != [] ==> t[0] in t;
    if s != [] {
      assert s[0] in t;
      assert t[0] in s;
      var i :| 0 <= i < |t| && t[i] == s[0];
      var j :| 0 <= j < |s| && s[j] == t[0];
      LessTotal(s[0], t[0]);
      assert s[0] == t[0];
      forall x ensures x in s[1..] <==> x in t[1..] {
        LessTotal(x, x);
        if x in s[1..] {
          assert x in s && x in t;
        }
        if x in t[1..] {
          assert x in t && x in s;
        }
      }
      AscendingUnique(s[1..], t[1..]);
    }
  }
}
