/**
 Accumulate URLs (pkg/url/url.go), reduced to what ordering and parenthood need: a URL is its folded
 authority and the folded, escaped segments of its path, and `Text` is the string that is compared.
 */
module Urls {
  import opened Order

  datatype Url = Url(authority: string, path: seq<string>)

  function PathText(path: seq<string>): string {
    if path == [] then "" else PathText(path[..|path| - 1]) + "/" + path[|path| - 1]
  }

  function Text(u: Url): string {
    "acc://" + u.authority + PathText(u.path)
  }

  function Codes(s: string): (k: Key)
    ensures |k| == |s|
  {
    seq(|s|, i requires 0 <= i < |s| => s[i] as int)
  }

  function KeyOf(u: Url): Key {
    Codes(Text(u))
  }

  /** Parent: the URL without the last segment of its path. */
  function Parent(u: Url): Url
    requires u.path != []
  {
    u.(path := u.path[..|u.path| - 1])
  }

  predicate ParentOf(u: Url, v: Url) {
    v.path != [] && Text(u) == Text(Parent(v))
  }

  lemma CodesInjective(s: string, t: string)
    requires Codes(s) == Codes(t)
    ensures s == t
  {
    forall i | 0 <= i < |s| ensures s[i] == t[i] {
      assert Codes(s)[i] == Codes(t)[i];
    }
  }

  /** URLs compare equal exactly if they have the same text. */
  lemma CompareIsTextEquality(u: Url, v: Url)
    ensures Compare(KeyOf(u), KeyOf(v)) == 0 <==> Text(u) == Text(v)
  {
    CompareZero(KeyOf(u), KeyOf(v));
    if KeyOf(u) == KeyOf(v) {
      CodesInjective(Text(u), Text(v));
    }
  }

  /** A child sorts after its parent. */
  lemma ChildIsAfter(u: Url, v: Url)
    requires ParentOf(u, v)
    ensures Compare(KeyOf(u), KeyOf(v)) < 0
  {
    var tail := "/" + v.path[|v.path| - 1];
    assert Text(v) == Text(u) + tail;
    assert KeyOf(v) == KeyOf(u) + Codes(tail);
    PrefixIsLess(KeyOf(u), Codes(tail));
  }
}
