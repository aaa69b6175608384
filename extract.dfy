/**
  The record construction of `parse_claims_from_json` (main.py:12-64). For
  every entry of the `areas` object it builds one claim record: the id is the
  entry's key, the coordinates are copied, the marker image URL is derived
  from the id, and the name, balance, chunk count and players are cut out of
  text fragments of the entry's HTML description. The HTML search itself
  (`soup.find`) is not modelled: its result for each field is given as an
  optional string.
 */
module Extractor {
  import opened Options
  import opened ClaimModel

  /** The prefix of every marker image URL (main.py:60). */
  const MarkerUrlPrefix: string := "https://map.stoneworks.gg/tiles/_markers_/marker_world/"

  /** The separator that `split(': ')` cuts at. */
  const Separator: string := ": "

  /**
    One entry of the `areas` object, with what the HTML search found in its
    description: the text of the first `span`, and the first text fragments
    that mention "Balance", "Chunks" and "Players".
   */
  datatype Area = Area(
    id: string,
    xs: seq<int>,
    zs: seq<int>,
    nameSpan: Option<string>,
    balanceText: Option<string>,
    chunksText: Option<string>,
    playersText: Option<string>)

  /** Python's `str.isspace` for one character: the characters that `strip()` removes. */
  predicate IsSpace(c: char) {
    || '\t' <= c <= '\r'
    || '\U{1C}' <= c <= '\U{1F}'
    || c == ' '
    || c == '\U{85}'
    || c == '\U{A0}'
    || c == '\U{1680}'
    || '\U{2000}' <= c <= '\U{200A}'
    || c == '\U{2028}'
    || c == '\U{2029}'
    || c == '\U{202F}'
    || c == '\U{205F}'
    || c == '\U{3000}'
  }

  /** `s.lstrip()`: the suffix of `s` left after its leading whitespace. */
  function StripStart(s: string): (r: string)
    ensures |r| <= |s| && r == s[|s| - |r|..]
    ensures forall k :: 0 <= k < |s| - |r| ==> IsSpace(s[k])
    ensures r != [] ==> !IsSpace(r[0])
    decreases |s|
  {
    if s != [] && IsSpace(s[0]) then
      var r := StripStart(s[1..]);
      assert s[1..][|s| - 1 - |r|..] == s[|s| - |r|..];
      assert forall k :: 1 <= k < |s| - |r| ==> s[k] == s[1..][k - 1];
      r
    else s
  }

  /** `s.rstrip()`: the prefix of `s` left before its trailing whitespace. */
  function StripEnd(s: string): (r: string)
    ensures |r| <= |s| && r == s[..|r|]
    ensures forall k :: |r| <= k < |s| ==> IsSpace(s[k])
    ensures r != [] ==> !IsSpace(r[|r| - 1])
    decreases |s|
  {
    if s != [] && IsSpace(s[|s| - 1]) then
      var r := StripEnd(s[..|s| - 1]);
      assert s[..|s| - 1][..|r|] == s[..|r|];
      assert forall k :: |r| <= k < |s| - 1 ==> s[k] == s[..|s| - 1][k];
      r
    else s
  }

  /** `s.strip()`. */
  function Strip(s: string): string {
    StripEnd(StripStart(s))
  }

  /** Whitespace before position `a`, whitespace from position `b` on, and a middle that is empty or has non-space ends. */
  predicate TrimmedMiddleAt(s: string, a: nat, b: nat) {
    && a <= b <= |s|
    && (forall k :: 0 <= k < a ==> IsSpace(s[k]))
    && (forall k :: b <= k < |s| ==> IsSpace(s[k]))
    && (a < b ==> !IsSpace(s[a]) && !IsSpace(s[b - 1]))
  }

  /** `StripStart` removes the whitespace before the middle, or everything when the middle is empty. */
  lemma StripStartAt(s: string, a: nat, b: nat)
    requires TrimmedMiddleAt(s, a, b)
    ensures StripStart(s) == s[if a < b then a else |s|..]
  {
    var r := StripStart(s);
    var l := |s| - |r|;
    assert r != [] ==> r[0] == s[l];
    assert l == if a < b then a else |s|;
  }

  /** After the leading whitespace, `StripEnd` removes the whitespace after the middle. */
  lemma StripEndAt(s: string, a: nat, b: nat)
    requires TrimmedMiddleAt(s, a, b) && a < b
    ensures StripEnd(s[a..]) == s[a..b]
  {
    var t := s[a..];
    var r := StripEnd(t);
    assert forall k :: 0 <= k < |t| ==> t[k] == s[a + k];
    assert r != [] ==> r[|r| - 1] == s[a + |r| - 1];
    assert |r| == b - a;
    assert t[..b - a] == s[a..b];
  }

  /**
    `Strip` cuts exactly the whitespace at both ends: for any split of `s` into
    whitespace, a middle that starts and ends with a non-space (or is empty), and
    whitespace, the result is that middle.
   */
  lemma StripIsTrimmedMiddle(s: string, a: nat, b: nat)
    requires a <= b <= |s|
    requires forall k :: 0 <= k < a ==> IsSpace(s[k])
    requires forall k :: b <= k < |s| ==> IsSpace(s[k])
    requires a < b ==> !IsSpace(s[a]) && !IsSpace(s[b - 1])
    ensures Strip(s) == s[a..b]
  {
    assert TrimmedMiddleAt(s, a, b);
    StripStartAt(s, a, b);
    if a < b {
      StripEndAt(s, a, b);
    } else {
      assert StripStart(s) == [];
    }
  }

  /** `': '` starts at position `k` of `s`. */
  predicate SeparatorAt(s: string, k: int) {
    0 <= k && k + 2 <= |s| && s[k] == Separator[0] && s[k + 1] == Separator[1]
  }

  /** The leftmost `': '` of `s` at or after `from`, as `str.split` finds it. */
  function FindSeparator(s: string, from: nat): (r: Option<nat>)
    requires from <= |s|
    ensures r.Some? ==> from <= r.value && SeparatorAt(s, r.value)
    ensures forall k :: from <= k < (if r.Some? then r.value else |s|) ==> !SeparatorAt(s, k)
    decreases |s| - from
  {
    if from + 2 > |s| then None
    else if SeparatorAt(s, from) then Some(from)
    else FindSeparator(s, from + 1)
  }

  /** `FindSeparator` finds the first separator at or after `from`. */
  lemma {:induction false} FindSeparatorIsFirst(s: string, from: nat, i: nat)
    requires from <= i && SeparatorAt(s, i)
    requires forall k :: from <= k < i ==> !SeparatorAt(s, k)
    ensures FindSeparator(s, from) == Some(i)
    decreases i - from
  {
    if from < i {
      FindSeparatorIsFirst(s, from + 1, i);
    }
  }

  /** `FindSeparator` finds nothing where there is no separator. */
  lemma {:induction false} FindSeparatorNone(s: string, from: nat)
    requires from <= |s|
    requires forall k :: from <= k < |s| ==> !SeparatorAt(s, k)
    ensures FindSeparator(s, from) == None
    decreases |s| - from
  {
    if from + 2 <= |s| {
      FindSeparatorNone(s, from + 1);
    }
  }

  /** `s.split(': ')[1]`, or `None` where Python raises `IndexError` because `s` has no `': '`. */
  function SecondPiece(s: string): Option<string> {
    match FindSeparator(s, 0)
    case None => None
    case Some(i) =>
      match FindSeparator(s, i + 2)
      case None => Some(s[i + 2..])
      case Some(j) => Some(s[i + 2..j])
  }

  /** `s.replace(ch, '')`. */
  function Without(s: string, ch: char): (r: string)
    ensures ch !in r
    ensures multiset(r) == multiset(s)[ch := 0]
    ensures ch !in s ==> r == s
    decreases |s|
  {
    if s == [] then []
    else
      assert s == [s[0]] + s[1..];
      (if s[0] == ch then [] else [s[0]]) + Without(s[1..], ch)
  }

  /**
    The chunks and players fields (main.py:33-39, 42-48): `split(': ')[1].strip()`
    of the fragment; `default` when there is no fragment or no separator in it.
   */
  function CleanedField(fragment: Option<string>, default: string): string {
    match fragment
    case None => default
    case Some(s) =>
      match SecondPiece(s)
      case None => default
      case Some(p) => Strip(p)
  }

  /** `s.replace(',', '').replace('$', '')`. */
  function Unformatted(s: string): (r: string)
    ensures ',' !in r && '$' !in r
    ensures multiset(r) == multiset(s)[',' := 0]['$' := 0]
  {
    var once := Without(s, ',');
    var r := Without(once, '$');
    assert multiset(r)[','] == multiset(once)[','] == 0;
    r
  }

  /** `.strip().replace(',', '').replace('$', '')` applied to the text after the balance label. */
  function BalanceText(piece: string): (r: string)
    ensures ',' !in r && '$' !in r
    ensures multiset(r) == multiset(Strip(piece))[',' := 0]['$' := 0]
  {
    Unformatted(Strip(piece))
  }

  /** One step of `replace(ch, '')`: the first character is dropped or kept, and the rest is cleaned on its own. */
  lemma WithoutCons(c: char, t: string, ch: char)
    ensures Without([c] + t, ch) == (if c == ch then [] else [c]) + Without(t, ch)
  {
    assert ([c] + t)[0] == c && ([c] + t)[1..] == t;
  }

  /** `+` on strings is associative. */
  lemma ConcatAssoc(h: string, x: string, y: string)
    ensures h + (x + y) == (h + x) + y
  {
  }

  /** Splitting off the first character of a non-empty string, alone and in front of `b`. */
  lemma SplitFirst(a: string, b: string)
    requires a != []
    ensures a == [a[0]] + a[1..] && a + b == [a[0]] + (a[1..] + b)
  {
    assert (a + b)[1..] == a[1..] + b;
  }

  /** The inductive step of `WithoutAppend`: putting one character in front of `t` keeps the equation. */
  lemma WithoutAppendStep(c: char, t: string, b: string, ch: char)
    requires Without(t + b, ch) == Without(t, ch) + Without(b, ch)
    ensures Without([c] + (t + b), ch) == Without([c] + t, ch) + Without(b, ch)
  {
    WithoutCons(c, t + b, ch);
    WithoutCons(c, t, ch);
    ConcatAssoc(if c == ch then [] else [c], Without(t, ch), Without(b, ch));
  }

  /** `replace(ch, '')` works character by character: on a concatenation it is the concatenation of the parts. */
  lemma {:induction false} WithoutAppend(a: string, b: string, ch: char)
    ensures Without(a + b, ch) == Without(a, ch) + Without(b, ch)
    decreases |a|
  {
    if a == [] {
      assert a + b == b;
      assert Without(a, ch) + Without(b, ch) == Without(b, ch);
    } else {
      WithoutAppend(a[1..], b, ch);
      WithoutAppendStep(a[0], a[1..], b, ch);
      SplitFirst(a, b);
    }
  }

  /** On one character, `replace(ch, '')` deletes it when it is `ch` and keeps it otherwise. */
  lemma WithoutOne(c: char, ch: char)
    ensures Without([c], ch) == if c == ch then [] else [c]
  {
    assert [c][1..] == [];
  }

  /** `Unformatted` works character by character: on a concatenation it is the concatenation of the parts. */
  lemma UnformattedAppend(a: string, b: string)
    ensures Unformatted(a + b) == Unformatted(a) + Unformatted(b)
  {
    WithoutAppend(a, b, ',');
    WithoutAppend(Without(a, ','), Without(b, ','), '$');
  }

  /** On one character, `Unformatted` deletes a `,` or a `$` and keeps anything else. */
  lemma UnformattedOne(c: char)
    ensures Unformatted([c]) == if c == ',' || c == '$' then [] else [c]
  {
    WithoutOne(c, ',');
    WithoutOne(c, '$');
    assert Without([], '$') == [];
  }

  /**
    The balance field (main.py:24-30): cleaned like the others, then with every
    `,` and then every `$` removed; `"0"` when there is no fragment or no separator.
   */
  function CleanedBalance(fragment: Option<string>): (r: string)
    ensures ',' !in r && '$' !in r
  {
    match fragment
    case None => "0"
    case Some(s) =>
      match SecondPiece(s)
      case None => "0"
      case Some(p) => BalanceText(p)
  }

  /** The name (main.py:20-21): the stripped text of the first `span`, or `"Unknown"`. */
  function CleanedName(span: Option<string>): string {
    match span
    case None => "Unknown"
    case Some(t) => Strip(t)
  }

  /**
    A fragment whose first `': '` starts at `i`, and whose next one starts at `j`
    (or that has none after `i`, with `j` its length), yields the stripped text
    between the two; the balance is that text without `,` and `$`.
   */
  lemma CleanedFieldBetweenSeparators(s: string, default: string, i: nat, j: nat)
    requires SeparatorAt(s, i) && forall k :: 0 <= k < i ==> !SeparatorAt(s, k)
    requires i + 2 <= j <= |s| && (j == |s| || SeparatorAt(s, j))
    requires forall k :: i + 2 <= k < j ==> !SeparatorAt(s, k)
    ensures CleanedField(Some(s), default) == Strip(s[i + 2..j])
    ensures CleanedBalance(Some(s)) == BalanceText(s[i + 2..j])
  {
    FindSeparatorIsFirst(s, 0, i);
    if j == |s| {
      FindSeparatorNone(s, i + 2);
      assert s[i + 2..] == s[i + 2..j];
    } else {
      FindSeparatorIsFirst(s, i + 2, j);
    }
  }

  /** Without a fragment, or without `': '` in it, every field keeps its default. */
  lemma CleanedFieldDefaults(fragment: Option<string>, default: string)
    requires fragment.Some? ==> forall k :: !SeparatorAt(fragment.value, k)
    ensures CleanedField(fragment, default) == default
    ensures CleanedBalance(fragment) == "0"
  {
    if fragment.Some? {
      FindSeparatorNone(fragment.value, 0);
    }
  }

  /** The record that `parse_claims_from_json` builds for one area. */
  predicate ExtractedFrom(c: Claim, a: Area) {
    && c.id == a.id
    && c.xs == a.xs
    && c.zs == a.zs
    && c.url == MarkerUrlPrefix + a.id + ".png"
    && c.name == CleanedName(a.nameSpan)
    && c.balance == CleanedBalance(a.balanceText)
    && c.chunks == CleanedField(a.chunksText, "0")
    && c.players == CleanedField(a.playersText, "Unknown")
  }

  /**
    One guarded field (main.py:33-39, 42-48): start with the default, and when the
    fragment was found replace it by `split(': ')[1].strip()`, unless that raises
    `IndexError`, in which case the default stays.
   */
  method ReadField(fragment: Option<string>, default: string) returns (value: string)
    ensures value == CleanedField(fragment, default)
  {
    value := default;
    match fragment {
      case None =>
      case Some(s) =>
        match SecondPiece(s) {
          case None =>
          case Some(p) => value := Strip(p);
        }
    }
  }

  /** The guarded balance field (main.py:24-30), with `"0"` as its default. */
  method ReadBalance(fragment: Option<string>) returns (value: string)
    ensures value == CleanedBalance(fragment)
  {
    value := "0";
    match fragment {
      case None =>
      case Some(s) =>
        match SecondPiece(s) {
          case None =>
          case Some(p) => value := BalanceText(p);
        }
    }
  }

  /**
    The body of the loop of `parse_claims_from_json` (main.py:16-61): the record
    for one area.
   */
  method ExtractClaim(area: Area) returns (claim: Claim)
    ensures claim.id == area.id && claim.xs == area.xs && claim.zs == area.zs
    ensures claim.url == MarkerUrlPrefix + area.id + ".png"
    ensures claim.name == CleanedName(area.nameSpan)
    ensures claim.balance == CleanedBalance(area.balanceText)
    ensures claim.chunks == CleanedField(area.chunksText, "0")
    ensures claim.players == CleanedField(area.playersText, "Unknown")
  {
    var name := "Unknown";
    match area.nameSpan {
      case None =>
      case Some(t) => name := Strip(t);
    }
    var balance := ReadBalance(area.balanceText);
    var chunks := ReadField(area.chunksText, "0");
    var players := ReadField(area.playersText, "Unknown");
    claim := Claim(area.id, name, balance, chunks, players, area.xs, area.zs, MarkerUrlPrefix + area.id + ".png");
  }

  /**
    The loop of `parse_claims_from_json` (main.py:15-62): one record per area, in
    the areas' order, with the area's key as id, its coordinates copied, the
    marker URL built from the id, and each text field cleaned or defaulted.
   */
  method ParseClaims(areas: seq<Area>) returns (claims: seq<Claim>)
    ensures |claims| == |areas|
    ensures forall i :: 0 <= i < |areas| ==> ExtractedFrom(claims[i], areas[i])
  {
    claims := [];
    for i := 0 to |areas|
      invariant |claims| == i
      invariant forall k :: 0 <= k < i ==> ExtractedFrom(claims[k], areas[k])
    {
      var claim := ExtractClaim(areas[i]);
      claims := claims + [claim];
    }
  }
}
