/** The four regular-expression shapes the reply parser uses, each with the match
    semantics JavaScript gives it, and the operations built on a leftmost match:
    `match`, `includes`, a lazy scan up to a lookahead, `replace` with `''`, and
    `split`. Every pattern here looks only forward from where it starts, so a match
    at index `i` depends on `s[i..]` alone. */
module Patterns {
  import opened Options
  import opened Text

  datatype Pattern =
    | Lit(text: string)          // a literal, matched case-sensitively
    | AnyOf(alts: seq<string>)   // `lit1|lit2|...`, alternatives tried left to right
    | ScoreLabel                 // /SCORE:\s*\d+/i
    | ItemNumber                 // /\n\d+\.\s/

  /** The pattern cannot match the empty string, so `split` makes progress. */
  predicate NeverEmpty(p: Pattern) {
    match p
    case Lit(t) => |t| > 0
    case AnyOf(alts) => forall k :: 0 <= k < |alts| ==> |alts[k]| > 0
    case _ => true
  }

  const ScoreWord := "score:"

  /** `SCORE:` under the `i` flag. Without the `u` flag JavaScript folds case with
      `toUpperCase` but never lets a non-ASCII character fold onto an ASCII one,
      so only the ASCII letters' two cases match. */
  predicate ScoreWordAt(s: string, i: nat) {
    i + |ScoreWord| <= |s| && ToLowerAscii(s[i..i + |ScoreWord|]) == ScoreWord
  }

  datatype CharClass = Whitespace | Digit

  predicate InClass(c: char, k: CharClass) {
    match k
    case Whitespace => IsSpace(c)
    case Digit => IsDigit(c)
  }

  /** Length of the longest run of class `k` starting at `i`: what a greedy `\s*`
      or `\d+` consumes. */
  function RunLength(s: string, i: nat, k: CharClass): (n: nat)
    requires i <= |s|
    ensures i + n <= |s|
    ensures forall j :: i <= j < i + n ==> InClass(s[j], k)
    ensures i + n == |s| || !InClass(s[i + n], k)
    decreases |s| - i
  {
    if i < |s| && InClass(s[i], k) then 1 + RunLength(s, i + 1, k) else 0
  }

  /** A maximal run is exactly as long as `RunLength` says. */
  lemma RunLengthExact(s: string, i: nat, n: nat, k: CharClass)
    requires i + n <= |s|
    requires forall j :: i <= j < i + n ==> InClass(s[j], k)
    requires i + n == |s| || !InClass(s[i + n], k)
    ensures RunLength(s, i, k) == n
  {
  }

  /** Index of the first alternative that occurs at `i`. */
  function FirstAlt(alts: seq<string>, s: string, i: nat): (r: Option<nat>)
    ensures r.Some? ==> r.value < |alts| && StartsAt(s, alts[r.value], i)
    ensures r.Some? ==> forall k :: 0 <= k < r.value ==> !StartsAt(s, alts[k], i)
    ensures r.None? ==> forall k :: 0 <= k < |alts| ==> !StartsAt(s, alts[k], i)
    decreases |alts|
  {
    if alts == [] then None
    else if StartsAt(s, alts[0], i) then Some(0)
    else match FirstAlt(alts[1..], s, i)
      case None => None
      case Some(k) => Some(k + 1)
  }

  /** Where a match of `p` that starts at `i` ends, if one starts there. For the
      regular expressions with runs, the backtracking engine ends up taking the
      longest runs, because the character after each run cannot belong to it
      (lemmas `ScoreLabelIsGreedy` and `ItemNumberIsForced`). */
  function MatchEnd(p: Pattern, s: string, i: nat): (r: Option<nat>)
    requires i <= |s|
    ensures r.Some? ==> i <= r.value <= |s|
    ensures r.Some? && NeverEmpty(p) ==> i < r.value
  {
    match p
    case Lit(t) =>
      if StartsAt(s, t, i) then Some(i + |t|) else None
    case AnyOf(alts) =>
      (match FirstAlt(alts, s, i)
       case None => None
       case Some(k) => Some(i + |alts[k]|))
    case ScoreLabel =>
      if ScoreWordAt(s, i) then
        var a := RunLength(s, i + 6, Whitespace);
        var b := RunLength(s, i + 6 + a, Digit);
        if b > 0 then Some(i + 6 + a + b) else None
      else None
    case ItemNumber =>
      if i < |s| && s[i] == '\n' then
        var b := RunLength(s, i + 1, Digit);
        if b > 0 && i + 1 + b + 1 < |s| && s[i + 1 + b] == '.' && IsSpace(s[i + 2 + b]) then
          Some(i + 3 + b)
        else None
      else None
  }

  predicate MatchesAt(p: Pattern, s: string, i: nat) {
    i <= |s| && MatchEnd(p, s, i).Some?
  }

  /** A literal matches where it occurs, and the match covers just the literal. */
  lemma LiteralMatch(t: string, s: string, i: nat)
    requires i <= |s|
    ensures MatchesAt(Lit(t), s, i) <==> StartsAt(s, t, i)
    ensures StartsAt(s, t, i) ==> MatchEnd(Lit(t), s, i) == Some(i + |t|)
  {
  }

  // ------------------------------------------------ backtracking semantics

  /** A way the backtracking engine could match `SCORE:\s*\d+` at `i`: `a`
      whitespace characters, then `b >= 1` digits. */
  ghost predicate ScoreSplit(s: string, i: nat, a: nat, b: nat) {
    && ScoreWordAt(s, i)
    && b >= 1 && i + 6 + a + b <= |s|
    && (forall j :: i + 6 <= j < i + 6 + a ==> IsSpace(s[j]))
    && (forall j :: i + 6 + a <= j < i + 6 + a + b ==> IsDigit(s[j]))
  }

  /** The score label matches at `i` exactly when some split does; every split
      uses the same amount of whitespace, and the match taken is the one with the
      longest digit run, which is what greedy `\d+` picks first. */
  lemma ScoreLabelIsGreedy(s: string, i: nat)
    requires i <= |s|
    ensures MatchesAt(ScoreLabel, s, i) <==> exists a, b :: ScoreSplit(s, i, a, b)
    ensures forall a, b :: ScoreSplit(s, i, a, b) ==>
      a == RunLength(s, i + 6, Whitespace) && i + 6 + a + b <= MatchEnd(ScoreLabel, s, i).value
  {
    if ScoreWordAt(s, i) {
      var a0 := RunLength(s, i + 6, Whitespace);
      var b0 := RunLength(s, i + 6 + a0, Digit);
      if b0 > 0 {
        assert ScoreSplit(s, i, a0, b0);
      }
      forall a, b | ScoreSplit(s, i, a, b)
        ensures a == a0 && b <= b0
      {
        DigitIsNotSpace(s[i + 6 + a]);
      }
    }
  }

  lemma DigitIsNotSpace(c: char)
    ensures IsDigit(c) ==> !IsSpace(c)
  {
  }

  /** A way `\n\d+\.\s` could match at `i` with `b` digits. */
  ghost predicate ItemSplit(s: string, i: nat, b: nat) {
    && b >= 1 && i + b + 3 <= |s|
    && s[i] == '\n'
    && (forall j :: i + 1 <= j < i + 1 + b ==> IsDigit(s[j]))
    && s[i + 1 + b] == '.' && IsSpace(s[i + 2 + b])
  }

  /** The numbered-item separator matches at `i` exactly when it can match at all,
      and then in one way only: the digit run cannot be shortened, since the `.`
      must follow it. */
  lemma ItemNumberIsForced(s: string, i: nat)
    requires i <= |s|
    ensures MatchesAt(ItemNumber, s, i) <==> exists b :: ItemSplit(s, i, b)
    ensures forall b :: ItemSplit(s, i, b) ==> MatchEnd(ItemNumber, s, i) == Some(i + b + 3)
  {
    if i < |s| && s[i] == '\n' {
      var b0 := RunLength(s, i + 1, Digit);
      if MatchesAt(ItemNumber, s, i) {
        assert ItemSplit(s, i, b0);
      }
      forall b | ItemSplit(s, i, b)
        ensures b == b0
      {
      }
    }
  }

  // -------------------------------------------------------- leftmost search

  /** The first index at or after `from` where `p` matches: how `String.prototype.match`
      (without `g`), `includes`, `indexOf` and `split` find their match. */
  function Search(p: Pattern, s: string, from: nat): (r: Option<nat>)
    requires from <= |s|
    ensures r.Some? ==> from <= r.value <= |s| && MatchesAt(p, s, r.value)
    ensures r.Some? ==> forall j :: from <= j < r.value ==> !MatchesAt(p, s, j)
    ensures r.None? ==> forall j :: from <= j <= |s| ==> !MatchesAt(p, s, j)
    decreases |s| - from
  {
    if MatchesAt(p, s, from) then Some(from)
    else if from == |s| then None
    else Search(p, s, from + 1)
  }

  /** Conversely, the search finds a match that nothing before it beats. */
  lemma SearchFindsLeftmost(p: Pattern, s: string, q: nat)
    requires q <= |s| && MatchesAt(p, s, q)
    requires forall j :: 0 <= j < q ==> !MatchesAt(p, s, j)
    ensures Search(p, s, 0) == Some(q)
  {
  }

  /** `s.includes(pat)`. */
  function Contains(s: string, pat: string): (b: bool)
    ensures b <==> Occurs(s, pat)
  {
    match Search(Lit(pat), s, 0)
    case Some(i) => true
    case None =>
      assert forall i: nat :: StartsAt(s, pat, i) ==> MatchesAt(Lit(pat), s, i);
      false
  }

  /** Where a lazy `[\s\S]*?` that starts at `from` stops when it is followed by the
      lookahead `(?=stop|$)` (no `m` flag, so `$` is the end of the input): the
      first index at or after `from` where `stop` matches, else the end. */
  function ScanTo(stop: Pattern, s: string, from: nat): (j: nat)
    requires from <= |s|
    ensures from <= j <= |s|
    ensures j == |s| || MatchesAt(stop, s, j)
    ensures forall k :: from <= k < j ==> !MatchesAt(stop, s, k)
  {
    match Search(stop, s, from)
    case Some(j) => j
    case None => |s|
  }

  /** `q` is where the leftmost match of `p` in `s` starts. */
  ghost predicate FirstMatchAt(p: Pattern, s: string, q: nat) {
    q <= |s| && MatchesAt(p, s, q) && forall j :: 0 <= j < q ==> !MatchesAt(p, s, j)
  }

  /** `s.replace(p, '')`: the leftmost match of `p` is cut out; with no match `s` is
      returned unchanged. */
  function RemoveFirst(p: Pattern, s: string): (r: string)
    ensures (forall j :: 0 <= j <= |s| ==> !MatchesAt(p, s, j)) ==> r == s
    ensures forall q: nat :: FirstMatchAt(p, s, q) ==> r == s[..q] + s[MatchEnd(p, s, q).value..]
  {
    match Search(p, s, 0)
    case None =>
      assert forall q: nat :: !FirstMatchAt(p, s, q);
      s
    case Some(q) =>
      assert forall q': nat :: FirstMatchAt(p, s, q') ==> q' == q;
      s[..q] + s[MatchEnd(p, s, q).value..]
  }

  /** Replacing the literal text of a matched region that begins with the first
      occurrence of `head` removes exactly that region: no earlier occurrence of the
      region is possible, since each would begin with `head`. */
  lemma RemoveFirstRegion(s: string, head: string, p: nat, j: nat)
    requires p + |head| <= j <= |s| && StartsAt(s, head, p)
    requires forall i :: 0 <= i < p ==> !StartsAt(s, head, i)
    ensures RemoveFirst(Lit(s[p..j]), s) == s[..p] + s[j..]
  {
    var region := s[p..j];
    assert MatchesAt(Lit(region), s, p);
    forall i | 0 <= i < p
      ensures !MatchesAt(Lit(region), s, i)
    {
      if StartsAt(s, region, i) {
        assert s[i..i + |head|] == region[..|head|] == head;
        assert StartsAt(s, head, i);
      }
    }
  }

  // ------------------------------------------------------------------ split

  /** `s.split(p)`: the pieces between successive leftmost, non-overlapping matches. */
  function Split(p: Pattern, s: string): (pieces: seq<string>)
    requires NeverEmpty(p)
    ensures |pieces| >= 1
    decreases |s|
  {
    match Search(p, s, 0)
    case None => [s]
    case Some(q) => [s[..q]] + Split(p, s[MatchEnd(p, s, q).value..])
  }

  /** The first piece is what precedes the leftmost match, or all of `s` when there
      is none; there are further pieces exactly when there is a match. */
  lemma SplitFirstPiece(p: Pattern, s: string)
    requires NeverEmpty(p)
    ensures |Split(p, s)| == 1 <==> forall j :: 0 <= j <= |s| ==> !MatchesAt(p, s, j)
    ensures |Split(p, s)| == 1 ==> Split(p, s)[0] == s
    ensures |Split(p, s)[0]| <= |s| && Split(p, s)[0] == s[..|Split(p, s)[0]|]
    ensures |Split(p, s)| > 1 ==> MatchesAt(p, s, |Split(p, s)[0]|)
    ensures forall j :: 0 <= j < |Split(p, s)[0]| ==> !MatchesAt(p, s, j)
  {
  }

  /** The separators `Split` cuts out, in order. */
  function Separators(p: Pattern, s: string): (seps: seq<string>)
    requires NeverEmpty(p)
    ensures |seps| == |Split(p, s)| - 1
    decreases |s|
  {
    match Search(p, s, 0)
    case None => []
    case Some(q) =>
      var e := MatchEnd(p, s, q).value;
      [s[q..e]] + Separators(p, s[e..])
  }

  /** Pieces with the separators put back between them. */
  function Interleave(pieces: seq<string>, seps: seq<string>): string
    requires |pieces| == |seps| + 1
    decreases |seps|
  {
    if seps == [] then pieces[0]
    else pieces[0] + seps[0] + Interleave(pieces[1..], seps[1..])
  }

  /** `split` loses nothing but the separators: putting them back gives the input. */
  lemma {:induction false} SplitRoundTrip(p: Pattern, s: string)
    requires NeverEmpty(p)
    ensures Interleave(Split(p, s), Separators(p, s)) == s
    decreases |s|
  {
    var r := Search(p, s, 0);
    if r.Some? {
      var q := r.value;
      var e := MatchEnd(p, s, q).value;
      var rest := s[e..];
      SplitRoundTrip(p, rest);
      SplitStep(p, s, q, e);
      SliceThree(s, q, e);
    }
  }

  /** One step of `Split` and `Separators`: the first piece and separator, then
      the same operations on what follows the first match. */
  lemma SplitStep(p: Pattern, s: string, q: nat, e: nat)
    requires NeverEmpty(p) && Search(p, s, 0) == Some(q) && MatchEnd(p, s, q) == Some(e)
    ensures Split(p, s) == [s[..q]] + Split(p, s[e..])
    ensures Separators(p, s) == [s[q..e]] + Separators(p, s[e..])
    ensures Interleave(Split(p, s), Separators(p, s))
      == s[..q] + s[q..e] + Interleave(Split(p, s[e..]), Separators(p, s[e..]))
  {
    var pieces, seps := Split(p, s), Separators(p, s);
    assert pieces[1..] == Split(p, s[e..]);
    assert seps[1..] == Separators(p, s[e..]);
  }

  /** Joining pieces with one fixed string: `Array.prototype.join`. */
  function Join(pieces: seq<string>, sep: string): string
    requires |pieces| >= 1
    decreases |pieces|
  {
    if |pieces| == 1 then pieces[0] else pieces[0] + sep + Join(pieces[1..], sep)
  }

  /** Splitting on a literal and joining with it again gives the input back. */
  lemma {:induction false} SplitJoinLiteral(sep: string, s: string)
    requires |sep| > 0
    ensures Join(Split(Lit(sep), s), sep) == s
    decreases |s|
  {
    var r := Search(Lit(sep), s, 0);
    if r.Some? {
      var q := r.value;
      var e := q + |sep|;
      LiteralMatch(sep, s, q);
      SplitStep(Lit(sep), s, q, e);
      SplitJoinLiteral(sep, s[e..]);
      JoinCons(s[..q], Split(Lit(sep), s[e..]), sep);
      assert s[q..e] == sep;
      SliceThree(s, q, e);
    }
  }

  lemma JoinCons(first: string, later: seq<string>, sep: string)
    requires |later| >= 1
    ensures Join([first] + later, sep) == first + sep + Join(later, sep)
  {
    assert ([first] + later)[1..] == later;
  }
}
