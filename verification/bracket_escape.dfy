/**
 * `escape_literal_brackets_with_links` of `src/converters/markdown_utils.py`:
 * a bracket group that lists markdown links gets its outer brackets escaped.
 *
 * The pattern `\[((?:[^\[\]]|\[[^\]]+\]\([^\)]+\))+)\]` is decided by hand.
 * Each repetition is either one character other than a bracket, or a link
 * `[label](target)` whose label runs to the first `]` and whose target runs to
 * the first `)`; both greedy classes stop exactly there, so every step is
 * forced. A group is `[`, the longest run of such units (at least one), and a
 * closing `]`; backtracking to fewer units never helps, because the character
 * after a shorter run starts another unit and so is not `]`.
 */
module BracketEscape {

  import opened Wrappers
  import opened Strings

  /**
   * The link `\[[^\]]+\]\([^\)]+\)` starting at `j`, if any: the offset just
   * after its closing parenthesis.
   */
  function LinkEnd(s: string, j: nat): (r: Option<nat>)
    requires j < |s|
    ensures r.Some? ==> j + 6 <= r.value <= |s| && s[r.value - 1] == ')'
  {
    if s[j] != '[' then None
    else
      var k := FirstIn(s, {']'}, j + 1);
      if k == |s| || k == j + 1 || k + 1 == |s| || s[k + 1] != '(' then None
      else
        var l := FirstIn(s, {')'}, k + 2);
        if l == |s| || l == k + 2 then None else Some(l + 1)
  }

  /** One repetition of the group's body at `j`: the offset after it, if any. */
  function UnitEnd(s: string, j: nat): (r: Option<nat>)
    requires j < |s|
    ensures r.Some? ==> j < r.value <= |s|
  {
    if s[j] == ']' then None
    else if s[j] == '[' then LinkEnd(s, j)
    else Some(j + 1)
  }

  /** The end of the longest run of units from `j`. */
  function RunEnd(s: string, j: nat): (e: nat)
    requires j <= |s|
    ensures j <= e <= |s|
    decreases |s| - j
  {
    if j == |s| then j
    else match UnitEnd(s, j)
      case None => j
      case Some(e) => RunEnd(s, e)
  }

  /** The group matched at `i`, if any: the offset just after its closing `]`. */
  function GroupAt(s: string, i: nat): (r: Option<nat>)
    requires i < |s|
    ensures r.Some? ==> i + 3 <= r.value <= |s| && s[i] == '[' && s[r.value - 1] == ']'
  {
    if s[i] != '[' then None
    else
      var e := RunEnd(s, i + 1);
      if e > i + 1 && e < |s| && s[e] == ']' then Some(e + 1) else None
  }

  /** `re.search(r'\[[^\]]+\]\([^\)]+\)', inner)` succeeds. */
  predicate HasLink(inner: string)
  {
    exists q :: 0 <= q < |inner| && LinkEnd(inner, q).Some?
  }

  /** The test made on a group's interior: it holds a link and looks like a list. */
  predicate LooksLikeLinkList(inner: string)
  {
    HasLink(inner) && (Count(inner, '[') > 2 || ContainsChar(inner, ','))
  }

  /** `escape_outer_brackets` on a group whose interior is `inner`. */
  function Rewrite(inner: string): (r: string)
    ensures LooksLikeLinkList(inner) ==> r == "\\[" + inner + "\\]"
    ensures !LooksLikeLinkList(inner) ==> r == "[" + inner + "]"
  {
    if LooksLikeLinkList(inner) then "\\[" + inner + "\\]" else "[" + inner + "]"
  }

  /**
   * A rewritten group is the group with at most two backslashes inserted,
   * and exactly when its interior looks like a list of links, in which case
   * the result opens with one.
   */
  lemma RewriteEscapes(inner: string)
    ensures var r := Rewrite(inner);
      && InsertsBackslashes("[" + inner + "]", r)
      && (r[0] == '\\' <==> LooksLikeLinkList(inner))
      && |inner| + 2 <= |r| <= |inner| + 4 && r[|r| - 1] == ']'
      && (|r| == |inner| + 2 <==> !LooksLikeLinkList(inner))
  {
    if LooksLikeLinkList(inner) {
      OuterEscapeInserts(inner);
    } else {
      InsertsBackslashesRefl("[" + inner + "]");
    }
  }

  /** Escaping both brackets of a group only adds the two backslashes. */
  lemma OuterEscapeInserts(inner: string)
    ensures InsertsBackslashes("[" + inner + "]", "\\[" + inner + "\\]")
  {
    InsertsBackslashesRefl(inner);
    assert InsertsBackslashes("[", "\\[") by {
      assert "\\["[1..] == "[";
      InsertsBackslashesRefl("[");
    }
    assert InsertsBackslashes("]", "\\]") by {
      assert "\\]"[1..] == "]";
      InsertsBackslashesRefl("]");
    }
    InsertsBackslashesAppend("[", "\\[", inner, inner);
    InsertsBackslashesAppend("[" + inner, "\\[" + inner, "]", "\\]");
  }

  /** Where `re.sub` resumes after offset `i`: past a group, else one on. */
  function Next(s: string, i: nat): (j: nat)
    requires i < |s|
    ensures i < j <= |s|
  {
    match GroupAt(s, i)
    case Some(e) => e
    case None => i + 1
  }

  /** What `re.sub` writes for offset `i`: the rewritten group, else the character. */
  function Emit(s: string, i: nat): string
    requires i < |s|
  {
    match GroupAt(s, i)
    case Some(e) => Rewrite(s[i + 1..e - 1])
    case None => [s[i]]
  }

  /** `re.sub(pattern, escape_outer_brackets, s)` from offset `i`, left to right. */
  function EscapeFrom(s: string, i: nat): string
    requires i <= |s|
    decreases |s| - i
  {
    if i == |s| then [] else Emit(s, i) + EscapeFrom(s, Next(s, i))
  }

  function EscapeLiteralBracketsWithLinks(s: string): string
  {
    EscapeFrom(s, 0)
  }

  /** Escaping a group only adds backslashes. */
  lemma RewriteInserts(s: string, i: nat, e: nat)
    requires i + 3 <= e <= |s| && s[i] == '[' && s[e - 1] == ']'
    ensures InsertsBackslashes(s[i..e], Rewrite(s[i + 1..e - 1]))
  {
    assert s[i..e] == "[" + s[i + 1..e - 1] + "]";
    RewriteEscapes(s[i + 1..e - 1]);
  }

  lemma EmitInserts(s: string, i: nat)
    requires i < |s|
    ensures InsertsBackslashes(s[i..Next(s, i)], Emit(s, i))
  {
    var j, out := Next(s, i), Emit(s, i);
    match GroupAt(s, i)
    case Some(e) =>
      RewriteInserts(s, i, e);
    case None =>
      assert s[i..j] == out;
      InsertsBackslashesRefl(out);
  }

  /** The rewrite only inserts backslashes: deleting them gives the input back. */
  lemma {:induction false} EscapeFromInserts(s: string, i: nat)
    requires i <= |s|
    ensures InsertsBackslashes(s[i..], EscapeFrom(s, i))
    decreases |s| - i
  {
    if i < |s| {
      var j := Next(s, i);
      EscapeFromInserts(s, j);
      EmitInserts(s, i);
      InsertsBackslashesAppend(s[i..j], Emit(s, i), s[j..], EscapeFrom(s, j));
      SuffixSplit(s, i, j);
    }
  }

  lemma EscapeInsertsOnlyBackslashes(s: string)
    ensures InsertsBackslashes(s, EscapeLiteralBracketsWithLinks(s))
    ensures !ContainsChar(s, '\\') ==> DropBackslashes(EscapeLiteralBracketsWithLinks(s)) == s
  {
    EscapeFromInserts(s, 0);
    assert s[0..] == s;
    if !ContainsChar(s, '\\') {
      DropUndoesInsertion(s, EscapeLiteralBracketsWithLinks(s));
    }
  }

  /** Every group the scan meets is left as it is unless it looks like a list of links. */
  predicate NoLinkList(s: string, i: nat)
  {
    forall j: nat :: i <= j < |s| && GroupAt(s, j).Some? ==> !LooksLikeLinkList(s[j + 1..GroupAt(s, j).value - 1])
  }

  lemma EmitIdentity(s: string, i: nat)
    requires i < |s| && NoLinkList(s, i)
    ensures Emit(s, i) == s[i..Next(s, i)]
  {
    match GroupAt(s, i)
    case Some(e) =>
      var inner := s[i + 1..e - 1];
      assert s[i..e] == "[" + inner + "]";
      assert Rewrite(inner) == "[" + inner + "]";
    case None =>
  }

  /** Without a group that looks like a list of links, the text comes back unchanged. */
  lemma {:induction false} EscapeFromIdentity(s: string, i: nat)
    requires i <= |s| && NoLinkList(s, i)
    ensures EscapeFrom(s, i) == s[i..]
    decreases |s| - i
  {
    if i < |s| {
      var j := Next(s, i);
      EscapeStepIdentity(s, i);
      EscapeFromIdentity(s, j);
      SuffixSplit(s, i, j);
    }
  }

  /** One step of the scan writes the text it passes over, and the rest of the text still has no list of links. */
  lemma EscapeStepIdentity(s: string, i: nat)
    requires i < |s| && NoLinkList(s, i)
    ensures EscapeFrom(s, i) == s[i..Next(s, i)] + EscapeFrom(s, Next(s, i))
    ensures NoLinkList(s, Next(s, i))
  {
    NoLinkListLater(s, i, Next(s, i));
    EmitIdentity(s, i);
  }

  lemma NoLinkListLater(s: string, i: nat, j: nat)
    requires i <= j && NoLinkList(s, i)
    ensures NoLinkList(s, j)
  {
  }

  /** A link found in `s` inside `[a, b)` is found at the same place in `s[a..b]`. */
  lemma LinkEndSlice(s: string, a: nat, b: nat, q: nat)
    requires a <= q < b <= |s|
    requires LinkEnd(s, q).Some? && LinkEnd(s, q).value <= b
    ensures LinkEnd(s[a..b], q - a) == Some(LinkEnd(s, q).value - a)
  {
    var u := s[a..b];
    var k := FirstIn(s, {']'}, q + 1);
    var l := FirstIn(s, {')'}, k + 2);
    FirstInIs(u, {']'}, q - a + 1, k - a);
    FirstInIs(u, {')'}, k - a + 2, l - a);
  }

  /** In a run of units, the first `[` starts a link that ends inside the run. */
  lemma {:induction false} RunHasLink(s: string, j: nat, e: nat, c: nat)
    requires j <= c < e <= |s| && RunEnd(s, j) == e && s[c] == '['
    ensures exists q :: j <= q <= c && LinkEnd(s, q).Some? && LinkEnd(s, q).value <= e
    decreases e - j
  {
    var next := UnitEnd(s, j).value;
    assert RunEnd(s, next) == e;
    if s[j] == '[' {
      assert LinkEnd(s, j).Some? && LinkEnd(s, j).value <= e;
    } else {
      assert next == j + 1;
      RunHasLink(s, j + 1, e, c);
    }
  }

  /**
   * For the interior of a matched group, the source's link search succeeds
   * exactly when the interior holds a `[`: a group is escaped iff its
   * interior has a `[` and either more than two of them or a comma.
   */
  lemma GroupHasLinkIffBracket(s: string, i: nat)
    requires i < |s| && GroupAt(s, i).Some?
    ensures var inner := s[i + 1..GroupAt(s, i).value - 1];
      HasLink(inner) <==> ContainsChar(inner, '[')
  {
    var inner := s[i + 1..GroupAt(s, i).value - 1];
    if ContainsChar(inner, '[') {
      BracketGivesLink(s, i, GroupAt(s, i).value - 1);
    }
    if HasLink(inner) {
      var q :| 0 <= q < |inner| && LinkEnd(inner, q).Some?;
      assert inner[q] == '[';
    }
  }

  /** A `[` inside a group's interior opens a link the search finds there. */
  lemma BracketGivesLink(s: string, i: nat, e: nat)
    requires i < |s| && GroupAt(s, i) == Some(e + 1)
    requires ContainsChar(s[i + 1..e], '[')
    ensures HasLink(s[i + 1..e])
  {
    var inner := s[i + 1..e];
    var c :| 0 <= c < |inner| && inner[c] == '[';
    RunHasLink(s, i + 1, e, i + 1 + c);
    var q :| i + 1 <= q <= i + 1 + c && LinkEnd(s, q).Some? && LinkEnd(s, q).value <= e;
    LinkEndSlice(s, i + 1, e, q);
  }
}
