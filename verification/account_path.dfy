/**
 Account path validation (protocol/protocol.go, IsValidAccountPath), on the bytes of the path. `inClasses` is
 membership in the Unicode categories letter, number, mark, dash punctuation and connector punctuation.
 */
module AccountPaths {
  import opened Common
  import opened Utf8

  const REPLACEMENT: nat := 65533

  /** The value that ranging over the string yields. */
  function Code(i: Item): nat {
    if i.BadByte? then REPLACEMENT else i.code
  }

  /** Space, '.', ':', '+', '~' and '|'. */
  predicate IsSymbol(r: nat) {
    r in {32, 46, 58, 43, 126, 124}
  }

  predicate Allowed(inClasses: nat -> bool, r: nat) {
    inClasses(r) || IsSymbol(r)
  }

  /** Besides the Unicode classes, six characters are allowed. */
  lemma AllowedCharacters(inClasses: nat -> bool, r: nat)
    ensures Allowed(inClasses, r) <==> inClasses(r) || exists c :: c in " .:+~|" && r == c as int
  {
    var symbols := " .:+~|";
    assert forall c :: c in symbols <==> c == ' ' || c == '.' || c == ':' || c == '+' || c == '~' || c == '|';
    if IsSymbol(r) {
      assert (r as char) in symbols;
    }
  }

  predicate DoubleSlash(s: seq<Item>) {
    exists i :: 0 <= i < |s| - 1 && s[i] == Rune(SLASH) && s[i + 1] == Rune(SLASH)
  }

  predicate AllAllowed(inClasses: nat -> bool, s: seq<Item>) {
    forall i :: 0 <= i < |s| && s[i] != Rune(SLASH) ==> Allowed(inClasses, Code(s[i]))
  }

  /** What a path may be: valid UTF-8, no two slashes in a row, and only allowed characters otherwise. */
  predicate ValidPath(inClasses: nat -> bool, s: Bytes) {
    ValidString(s) && !DoubleSlash(Decode(s)) && AllAllowed(inClasses, Decode(s))
  }

  /** A path of characters that are slashes or allowed, with no two slashes in a row. */
  ghost predicate IsPath(inClasses: nat -> bool, cs: seq<nat>) {
    && (forall i :: 0 <= i < |cs| ==>
          && IsScalar(cs[i])
          && (cs[i] == '/' as int || inClasses(cs[i]) || exists c :: c in " .:+~|" && cs[i] == c as int))
    && (forall i :: 0 < i < |cs| ==> !(cs[i - 1] == cs[i] == '/' as int))
  }

  /** The valid paths are the UTF-8 encodings of such paths. */
  lemma ValidPathIsPath(inClasses: nat -> bool, s: Bytes)
    ensures ValidPath(inClasses, s) <==> exists cs :: IsPath(inClasses, cs) && s == EncodeAll(cs)
  {
    hide Decode, ValidPath;
    if ValidPath(inClasses, s) {
      var cs := PathOfValid(inClasses, s);
    }
    forall cs | IsPath(inClasses, cs) && s == EncodeAll(cs) ensures ValidPath(inClasses, s) {
      ValidOfPath(inClasses, cs);
    }
  }

  lemma {:induction false} PathOfValid(inClasses: nat -> bool, s: Bytes) returns (cs: seq<nat>)
    requires ValidPath(inClasses, s)
    ensures IsPath(inClasses, cs) && s == EncodeAll(cs)
  {
    hide Decode, Allowed;
    cs := ValidIsEncoded(s);
    var items := Runes(cs);
    forall i | 0 <= i < |cs| && cs[i] != SLASH
      ensures inClasses(cs[i]) || exists c :: c in " .:+~|" && cs[i] == c as int
    {
      assert items[i] == Rune(cs[i]);
      AllowedCharacters(inClasses, cs[i]);
    }
    forall i | 0 < i < |cs| ensures !(cs[i - 1] == cs[i] == SLASH) {
      assert items[i - 1] == Rune(cs[i - 1]) && items[i - 1 + 1] == Rune(cs[i]);
    }
  }

  lemma {:induction false} ValidOfPath(inClasses: nat -> bool, cs: seq<nat>)
    requires IsPath(inClasses, cs)
    ensures ValidPath(inClasses, EncodeAll(cs))
  {
    hide Decode, Allowed;
    DecodeOfEncode(cs);
    var items := Runes(cs);
    forall i | 0 <= i < |cs| && items[i] != Rune(SLASH) ensures Allowed(inClasses, Code(items[i])) {
      AllowedCharacters(inClasses, cs[i]);
    }
    forall i | 0 <= i < |items| - 1 ensures !(items[i] == items[i + 1] == Rune(SLASH)) {
      assert !(cs[i + 1 - 1] == cs[i + 1] == SLASH);
    }
  }

  /** strings.IndexByte of the slash, or the length. */
  function PartLength(s: Bytes): (n: nat)
    ensures n <= |s| && (forall i :: 0 <= i < n ==> s[i] != SLASH) && (n < |s| ==> s[n] == SLASH)
  {
    if s == [] || s[0] == SLASH then 0 else 1 + PartLength(s[1..])
  }

  /** The character is in the part and not allowed. */
  ghost predicate Illegal(inClasses: nat -> bool, part: seq<Item>, r: nat) {
    !Allowed(inClasses, r) && exists k :: 0 <= k < |part| && Code(part[k]) == r
  }

  /** The first character that is not allowed is a replacement character. */
  ghost predicate BadFirst(inClasses: nat -> bool, part: seq<Item>) {
    exists k :: 0 <= k < |part| && AllAllowed(inClasses, part[..k]) && Code(part[k]) == REPLACEMENT
                && !Allowed(inClasses, REPLACEMENT)
  }

  /** What has been reported of a part: every character that is not allowed, once; but a replacement character only if
      nothing was reported before it. */
  ghost predicate Reported(
    inClasses: nat -> bool, part: seq<Item>, errs0: nat, seen0: set<nat>, errs: nat, seen: set<nat>)
  {
    && errs == errs0 + |seen - seen0| && seen0 <= seen
    && (forall r :: r in seen - seen0 ==> Illegal(inClasses, part, r))
    && (forall r :: Illegal(inClasses, part, r) && r != REPLACEMENT ==> r in seen)
    && (REPLACEMENT in seen <==> REPLACEMENT in seen0 || (errs0 == 0 && BadFirst(inClasses, part)))
  }

  lemma AllowedNext(inClasses: nat -> bool, part: seq<Item>, k: nat)
    requires k < |part| && Rune(SLASH) !in part
    ensures AllAllowed(inClasses, part[..k + 1]) <==>
            AllAllowed(inClasses, part[..k]) && Allowed(inClasses, Code(part[k]))
  {
    assert part[k] in part && part[..k + 1][k] == part[k];
    assert forall i :: 0 <= i < k ==> part[..k + 1][i] == part[..k][i];
  }

  lemma NothingReported(inClasses: nat -> bool, errs: nat, seen: set<nat>)
    ensures AllAllowed(inClasses, []) && Reported(inClasses, [], errs, seen, errs, seen)
  {
    assert seen - seen == {};
  }

  lemma IllegalNext(inClasses: nat -> bool, part: seq<Item>, k: nat, r: nat)
    requires k < |part|
    ensures Illegal(inClasses, part[..k + 1], r) <==>
            Illegal(inClasses, part[..k], r) || (r == Code(part[k]) && !Allowed(inClasses, r))
  {
    hide Allowed, Code;
    var a, b := part[..k], part[..k + 1];
    assert b[k] == part[k] && forall i :: 0 <= i < k ==> a[i] == b[i];
    if Illegal(inClasses, b, r) {
      var i :| 0 <= i < |b| && Code(b[i]) == r;
      assert i < k ==> Code(a[i]) == r;
    }
    if Illegal(inClasses, a, r) {
      var i :| 0 <= i < |a| && Code(a[i]) == r;
      assert Code(b[i]) == r;
    }
  }

  lemma BadFirstNext(inClasses: nat -> bool, part: seq<Item>, k: nat)
    requires k < |part|
    ensures BadFirst(inClasses, part[..k + 1]) <==>
            || BadFirst(inClasses, part[..k])
            || (AllAllowed(inClasses, part[..k]) && Code(part[k]) == REPLACEMENT && !Allowed(inClasses, REPLACEMENT))
  {
    hide Allowed, Code, AllAllowed;
    var a, b := part[..k], part[..k + 1];
    assert b[k] == part[k] && forall i :: 0 <= i < k ==> a[i] == b[i] && a[..i] == b[..i];
    assert b[..k] == a;
  }

  lemma ReportedNext(
    inClasses: nat -> bool, part: seq<Item>, k: nat, errs0: nat, seen0: set<nat>, errs: nat, seen: set<nat>)
    requires k < |part| && Reported(inClasses, part[..k], errs0, seen0, errs, seen)
    requires errs == 0 <==> errs0 == 0 && AllAllowed(inClasses, part[..k])
    ensures var r := Code(part[k]);
            if Allowed(inClasses, r) || (errs > 0 && r == REPLACEMENT) || r in seen
            then Reported(inClasses, part[..k + 1], errs0, seen0, errs, seen)
            else Reported(inClasses, part[..k + 1], errs0, seen0, errs + 1, seen + {r})
  {
    var c := Code(part[k]);
    forall r
      ensures Illegal(inClasses, part[..k + 1], r) <==>
              Illegal(inClasses, part[..k], r) || (r == c && !Allowed(inClasses, r))
    {
      IllegalNext(inClasses, part, k, r);
    }
    BadFirstNext(inClasses, part, k);
    hide Illegal, BadFirst, AllAllowed, Allowed, Code;
    assert c !in seen ==> seen + {c} - seen0 == seen - seen0 + {c};
  }

  /** The inner loop: report the characters of one part that are not allowed, each once. Once something has
      been reported, replacement characters are passed over. */
  method CheckPart(inClasses: nat -> bool, part: seq<Item>, errs0: nat, seen0: set<nat>)
    returns (errs: nat, seen: set<nat>)
    requires Rune(SLASH) !in part && (seen0 != {} ==> errs0 > 0)
    ensures seen != {} ==> errs > 0
    ensures errs == 0 <==> errs0 == 0 && AllAllowed(inClasses, part)
    ensures Reported(inClasses, part, errs0, seen0, errs, seen)
  {
    hide AllAllowed, Reported, Code;
    errs, seen := errs0, seen0;
    NothingReported(inClasses, errs, seen);
    assert part[..0] == [];
    for k := 0 to |part|
      invariant seen != {} ==> errs > 0
      invariant errs == 0 <==> errs0 == 0 && AllAllowed(inClasses, part[..k])
      invariant Reported(inClasses, part[..k], errs0, seen0, errs, seen)
    {
      var r := Code(part[k]);
      AllowedNext(inClasses, part, k);
      ReportedNext(inClasses, part, k, errs0, seen0, errs, seen);
      if inClasses(r) || (errs > 0 && r == REPLACEMENT) || IsSymbol(r) {
        continue;
      }
      if r in seen {
        continue;
      }
      seen := seen + {r};
      errs := errs + 1;
    }
    assert part[..|part|] == part;
  }

  /** The loop over leading slashes: all of them are removed, and more than one is an error. */
  method SkipSlashes(s: Bytes) returns (rest: Bytes, multi: bool, n: nat)
    ensures n <= |s| && rest == s[n..] && (forall i :: 0 <= i < n ==> s[i] == SLASH)
    ensures rest != [] ==> rest[0] != SLASH
    ensures multi <==> n > 1
  {
    rest, multi, n := s, false, 0;
    while |rest| > 0 && rest[0] == SLASH
      invariant n <= |s| && rest == s[n..] && (forall i :: 0 <= i < n ==> s[i] == SLASH)
      invariant multi <==> n > 1
      decreases |rest|
    {
      if n > 0 {
        multi := true;
      }
      n := n + 1;
      rest := rest[1..];
    }
  }

  /** What one round of the outer loop takes off: slashes, and a part without any. */
  lemma {:induction false} Round(inClasses: nat -> bool, s: Bytes, n: nat, part: Bytes, rest: Bytes)
    requires n <= |s| && (forall i :: 0 <= i < n ==> s[i] == SLASH) && s[n..] == part + rest && SLASH !in part
    requires rest != [] ==> rest[0] == SLASH && part != []
    ensures DoubleSlash(Decode(s)) <==> n > 1 || DoubleSlash(Decode(rest))
    ensures AllAllowed(inClasses, Decode(s)) <==>
            AllAllowed(inClasses, Decode(part)) && AllAllowed(inClasses, Decode(rest))
  {
    DecodeSlashes(n, s);
    DecodeConcat(part, rest);
    NoSlashes(part);
    DecodeEmpty(part);
    hide Decode;
    ItemRound(inClasses, n, Decode(part), Decode(rest));
    assert Decode(s) == seq(n, _ => Rune(SLASH)) + (Decode(part) + Decode(rest));
  }

  lemma DecodeEmpty(s: Bytes)
    ensures Decode(s) == [] <==> s == []
  {
  }

  lemma ItemRound(inClasses: nat -> bool, n: nat, part: seq<Item>, rest: seq<Item>)
    requires Rune(SLASH) !in part && (part == [] ==> rest == [])
    ensures var s := seq(n, _ => Rune(SLASH)) + (part + rest);
            && (DoubleSlash(s) <==> n > 1 || DoubleSlash(rest))
            && (AllAllowed(inClasses, s) <==> AllAllowed(inClasses, part) && AllAllowed(inClasses, rest))
  {
    hide DoubleSlash, AllAllowed;
    AllowedSplit(inClasses, n, part, rest);
    var s := seq(n, _ => Rune(SLASH)) + (part + rest);
    assert forall i :: 0 <= i < n ==> s[i] == Rune(SLASH);
    assert forall i :: 0 <= i < |part| ==> s[n + i] == part[i];
    assert forall i :: 0 <= i < |rest| ==> s[n + |part| + i] == rest[i];
    SlashesSplit(n, part, rest, s);
  }

  lemma SlashesSplit(n: nat, part: seq<Item>, rest: seq<Item>, s: seq<Item>)
    requires Rune(SLASH) !in part && (part == [] ==> rest == []) && |s| == n + |part| + |rest|
    requires forall i :: 0 <= i < n ==> s[i] == Rune(SLASH)
    requires forall i :: 0 <= i < |part| ==> s[n + i] == part[i]
    requires forall i :: 0 <= i < |rest| ==> s[n + |part| + i] == rest[i]
    ensures DoubleSlash(s) <==> n > 1 || DoubleSlash(rest)
  {
    var m := n + |part|;
    if n > 1 {
      assert s[0] == Rune(SLASH) && s[0 + 1] == Rune(SLASH);
    }
    if DoubleSlash(rest) {
      var i :| 0 <= i < |rest| - 1 && rest[i] == Rune(SLASH) && rest[i + 1] == Rune(SLASH);
      assert s[m + i] == Rune(SLASH) && s[m + (i + 1)] == Rune(SLASH);
    }
    forall i | n <= i < m ensures s[i] != Rune(SLASH) {
      assert s[n + (i - n)] == part[i - n] && part[i - n] in part;
    }
    if DoubleSlash(s) && n <= 1 {
      var i :| 0 <= i < |s| - 1 && s[i] == Rune(SLASH) && s[i + 1] == Rune(SLASH);
      if i >= m {
        assert rest[i - m] == s[m + (i - m)] && rest[i - m + 1] == s[m + (i - m + 1)];
      }
    }
  }

  lemma AllowedSplit(inClasses: nat -> bool, n: nat, part: seq<Item>, rest: seq<Item>)
    ensures var s := seq(n, _ => Rune(SLASH)) + (part + rest);
            AllAllowed(inClasses, s) <==> AllAllowed(inClasses, part) && AllAllowed(inClasses, rest)
  {
    var m := |part|;
    var s := seq(n, _ => Rune(SLASH)) + (part + rest);
    if AllAllowed(inClasses, s) {
      assert forall i :: 0 <= i < m ==> s[n + i] == part[i];
      assert forall i :: 0 <= i < |rest| ==> s[n + m + i] == rest[i];
    }
    if AllAllowed(inClasses, part) && AllAllowed(inClasses, rest) {
      forall i | 0 <= i < |s| && s[i] != Rune(SLASH) ensures Allowed(inClasses, Code(s[i])) {
        if i < n + m {
          assert s[i] == part[i - n];
        } else {
          assert s[i] == rest[i - (n + m)];
        }
      }
    }
  }

  /** Accepts exactly the valid paths. */
  method IsValidAccountPath(inClasses: nat -> bool, s: Bytes) returns (ok: bool)
    ensures ok <==> ValidPath(inClasses, s)
  {
    hide Decode, DoubleSlash, AllAllowed;
    var errs: nat := if !ValidString(s) then 1 else 0;
    var multiSlash, seen, rest := false, {}, s;
    while true
      invariant seen != {} ==> errs > 0
      invariant errs == 0 ==> ValidString(s)
      invariant (errs == 0 && AllAllowed(inClasses, Decode(rest))) <==>
                (ValidString(s) && AllAllowed(inClasses, Decode(s)))
      invariant (multiSlash || DoubleSlash(Decode(rest))) <==> DoubleSlash(Decode(s))
      decreases |rest|
    {
      ghost var before := rest;
      var multi, n;
      rest, multi, n := SkipSlashes(rest);
      multiSlash := multiSlash || multi;
      if |rest| == 0 {
        Round(inClasses, before, n, [], []);
        NothingLeft(inClasses);
        break;
      }
      var m := PartLength(rest);
      var part := rest[..m];
      rest := rest[m..];
      assert before[n..] == part + rest;
      Round(inClasses, before, n, part, rest);
      NoSlashes(part);
      errs, seen := CheckPart(inClasses, Decode(part), errs, seen);
    }
    if multiSlash {
      errs := errs + 1;
    }
    ok := errs == 0;
  }

  lemma NothingLeft(inClasses: nat -> bool)
    ensures !DoubleSlash(Decode([])) && AllAllowed(inClasses, Decode([]))
  {
  }
}
