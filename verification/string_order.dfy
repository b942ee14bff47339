/** The order `Array.prototype.sort()` puts strings in when given no
    comparator: character by character, a proper prefix before its
    extensions. */
module StringOrder {

  predicate Le(a: string, b: string)
  {
    |a| == 0 || (|b| > 0 && (a[0] < b[0] || (a[0] == b[0] && Le(a[1..], b[1..]))))
  }

  lemma {:induction false} LeReflexive(a: string)
    ensures Le(a, a)
  {
    if |a| > 0 {
      LeReflexive(a[1..]);
    }
  }

  lemma {:induction false} LeTotal(a: string, b: string)
    ensures Le(a, b) || Le(b, a)
  {
    if |a| > 0 && |b| > 0 && a[0] == b[0] {
      LeTotal(a[1..], b[1..]);
    }
  }

  lemma {:induction false} LeTransitive(a: string, b: string, c: string)
    requires Le(a, b) && Le(b, c)
    ensures Le(a, c)
  {
    if |a| > 0 && a[0] == b[0] && b[0] == c[0] {
      LeTransitive(a[1..], b[1..], c[1..]);
    }
  }

  lemma {:induction false} LeAntisymmetric(a: string, b: string)
    requires Le(a, b) && Le(b, a)
    ensures a == b
  {
    if |a| > 0 {
      LeAntisymmetric(a[1..], b[1..]);
      assert a == [a[0]] + a[1..] && b == [b[0]] + b[1..];
    }
  }

  /** Names are compared as strings, not as page numbers: `rpde-10.json`
      sorts before `rpde-2.json`. */
  lemma TenBeforeTwo()
    ensures Le("rpde-10.json", "rpde-2.json") && !Le("rpde-2.json", "rpde-10.json")
  {
    var a := "rpde-10.json";
    var b := "rpde-2.json";
    assert a[1..][1..][1..][1..][1..] == "10.json";
    assert b[1..][1..][1..][1..][1..] == "2.json";
  }
}
