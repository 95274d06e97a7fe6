/**
 * Code regions and the three Logseq escape passes of
 * `src/converters/markdown_utils.py`.
 *
 * The code regions are computed once, on the original text. Each pass then
 * walks the matches of its own pattern in the text the previous pass
 * produced, right to left, and tests each match offset against those
 * original regions.
 */
module LogseqEscape {

  import opened Wrappers
  import opened Strings

  datatype RegionKind = Fence | InlineCode

  /** A half-open code region `[start, end)` of the text it was found in. */
  datatype Region = Region(start: nat, end: nat, kind: RegionKind)

  const Ticks: string := "```"

  /** `[a, b)` is a match of ```` ```[\s\S]*?``` ````: no earlier closing fence inside. */
  predicate IsFenceSpan(s: string, a: nat, b: nat)
  {
    a + 6 <= b <= |s| && OccursAt(s, Ticks, a) && OccursAt(s, Ticks, b - 3)
    && forall k :: a + 3 <= k < b - 3 ==> !OccursAt(s, Ticks, k)
  }

  /** `[a, b)` is a match of `` `[^`\n]+?` ``. */
  predicate IsInlineSpan(s: string, a: nat, b: nat)
  {
    a + 3 <= b <= |s| && s[a] == '`' && s[b - 1] == '`'
    && forall k :: a < k < b - 1 ==> s[k] != '`' && s[k] != '\n'
  }

  /** `re.finditer(r'```[\s\S]*?```', s)` from offset `i`. */
  function Fences(s: string, i: nat): (rs: seq<Region>)
    requires i <= |s|
    ensures forall k :: 0 <= k < |rs| ==>
              i <= rs[k].start && rs[k].kind == Fence && IsFenceSpan(s, rs[k].start, rs[k].end)
    decreases |s| - i
  {
    match FindFrom(s, Ticks, i)
    case None => []
    case Some(a) =>
      match FindFrom(s, Ticks, a + 3)
      case None => []
      case Some(b) => [Region(a, b + 3, Fence)] + Fences(s, b + 3)
  }

  /** `re.finditer(r'`[^`\n]+?`', s)` from offset `i`. */
  function InlineCodes(s: string, i: nat): (rs: seq<Region>)
    requires i <= |s|
    ensures forall k :: 0 <= k < |rs| ==>
              i <= rs[k].start && rs[k].kind == InlineCode && IsInlineSpan(s, rs[k].start, rs[k].end)
    decreases |s| - i
  {
    if i == |s| then []
    else if s[i] == '`' then
      var j := FirstIn(s, {'`', '\n'}, i + 1);
      if j < |s| && s[j] == '`' && j > i + 1 then [Region(i, j + 1, InlineCode)] + InlineCodes(s, j + 1)
      else InlineCodes(s, i + 1)
    else InlineCodes(s, i + 1)
  }

  /**
   * `_extract_code_blocks`: fenced blocks, then inline spans. The source sorts
   * the list by start offset; membership is all that is ever asked of it.
   */
  function ExtractCodeBlocks(s: string): (rs: seq<Region>)
    ensures forall k :: 0 <= k < |rs| ==>
              (rs[k].kind == Fence && IsFenceSpan(s, rs[k].start, rs[k].end))
              || (rs[k].kind == InlineCode && IsInlineSpan(s, rs[k].start, rs[k].end))
  {
    Fences(s, 0) + InlineCodes(s, 0)
  }

  /** `_is_in_code_context`: some region holds `p` in its half-open interval. */
  function InCodeContext(p: nat, regions: seq<Region>): (b: bool)
    ensures b <==> exists k :: 0 <= k < |regions| && regions[k].start <= p < regions[k].end
  {
    if regions == [] then false
    else (regions[0].start <= p < regions[0].end) || InCodeContext(p, regions[1..])
  }

  datatype Pass = Braces | Colons | Parens

  /**
   * The pattern of each pass, matched at offset `i` of `t`:
   * `\{\{|\}\}`, `(?<!:)::(?!/)` and `\(\(|\)\)`.
   */
  predicate PairAt(pass: Pass, t: string, i: nat)
  {
    i + 1 < |t| &&
    match pass
    case Braces => (t[i] == '{' && t[i + 1] == '{') || (t[i] == '}' && t[i + 1] == '}')
    case Parens => (t[i] == '(' && t[i + 1] == '(') || (t[i] == ')' && t[i + 1] == ')')
    case Colons =>
      && t[i] == ':' && t[i + 1] == ':'
      && (i == 0 || t[i - 1] != ':')
      && (i + 2 == |t| || t[i + 2] != '/')
  }

  /** The offsets where the pass's pattern matches. */
  function Hits(pass: Pass, t: string): (hits: set<nat>)
    ensures forall i: nat :: i in hits <==> PairAt(pass, t, i)
  {
    set i: nat | i < |t| && PairAt(pass, t, i)
  }

  /**
   * The start offsets `re.finditer` reports, scanning from `i`, for a pattern
   * of two characters that matches exactly at the offsets `hits`.
   */
  function Matches(hits: set<nat>, t: string, i: nat): (ms: seq<nat>)
    requires i <= |t|
    ensures forall k :: 0 <= k < |ms| ==> i <= ms[k] && ms[k] + 1 < |t| && ms[k] in hits
    decreases |t| - i
  {
    if i + 1 >= |t| then []
    else if i in hits then [i] + Matches(hits, t, i + 2)
    else Matches(hits, t, i + 1)
  }

  /** `result[max(0, p - 10):p]`, the window searched for a URL scheme. */
  function Before(t: string, p: nat): string
  {
    var hi := if p <= |t| then p else |t|;
    t[(if hi >= 10 then hi - 10 else 0)..hi]
  }

  /**
   * A match at `p` is rewritten when it is outside every code region and, for
   * `::`, no "http" occurs in the ten characters before it (the source's
   * second test, for "https", can never add anything).
   */
  predicate Escapes(pass: Pass, t: string, p: nat, regions: seq<Region>)
  {
    !InCodeContext(p, regions) && (pass == Colons ==> !Contains(Before(t, p), "http"))
  }

  /**
   * What a pass writes for the match at `p`: `\x\x` when `p` is one of the
   * offsets to escape, the pair unchanged otherwise.
   */
  function Piece(t: string, escape: set<nat>, p: nat): string
    requires p + 1 < |t|
  {
    if p in escape then ['\\', t[p], '\\', t[p + 1]] else t[p..p + 2]
  }

  /** Where the scan goes after offset `i`: past the pair at a match, else one on. */
  function Step(hits: set<nat>, i: nat): (j: nat)
    ensures i < j <= i + 2
  {
    if i in hits then i + 2 else i + 1
  }

  /** What the scan writes at offset `i`: the piece at a match, else the character. */
  function Head(hits: set<nat>, t: string, escape: set<nat>, i: nat): string
    requires i + 1 < |t|
  {
    if i in hits then Piece(t, escape, i) else [t[i]]
  }

  /** A pass's output for `t[i..]`, left to right. */
  function Out(hits: set<nat>, t: string, escape: set<nat>, i: nat): string
    requires i <= |t|
    decreases |t| - i
  {
    if i + 1 >= |t| then t[i..] else Head(hits, t, escape, i) + Out(hits, t, escape, Step(hits, i))
  }

  /** The match offsets the source decides to rewrite. */
  function Decide(pass: Pass, t: string, regions: seq<Region>): (escape: set<nat>)
    ensures forall p: nat :: p in escape <==> p < |t| && Escapes(pass, t, p, regions)
  {
    set p: nat | p < |t| && Escapes(pass, t, p, regions)
  }

  function EscapePass(pass: Pass, t: string, regions: seq<Region>): string
  {
    Out(Hits(pass, t), t, Decide(pass, t, regions), 0)
  }

  /** No match of the pass starts in `[i, j)`. */
  predicate NoHits(hits: set<nat>, t: string, i: nat, j: nat)
  {
    forall x: nat :: i <= x < j && x + 1 < |t| ==> x !in hits
  }

  /** Off a match, the pass copies one character and moves on. */
  lemma OutMiss(hits: set<nat>, t: string, escape: set<nat>, i: nat)
    requires i + 1 < |t| && i !in hits
    ensures Out(hits, t, escape, i) == [t[i]] + Out(hits, t, escape, i + 1)
  {
  }

  /** Without a match in `[i, j)`, the pass copies `t[i..j]` unchanged. */
  lemma {:induction false} OutSkip(hits: set<nat>, t: string, escape: set<nat>, i: nat, j: nat)
    requires i <= j <= |t|
    requires NoHits(hits, t, i, j)
    ensures Out(hits, t, escape, i) == t[i..j] + Out(hits, t, escape, j)
    decreases j - i
  {
    if i < j {
      if i + 1 < |t| {
        OutMiss(hits, t, escape, i);
        OutSkip(hits, t, escape, i + 1, j);
        assert t[i..j] == [t[i]] + t[i + 1..j];
        ConcatAssoc([t[i]], t[i + 1..j], Out(hits, t, escape, j));
      } else {
        assert t[i..j] == t[i..];
      }
    }
  }

  /** Where the next reported match starts, or the end of the text. */
  function NextMatch(hits: set<nat>, t: string, i: nat): (q: nat)
    requires i <= |t|
    ensures i <= q <= |t|
  {
    var ms := Matches(hits, t, i);
    if ms == [] then |t| else ms[0]
  }

  /** `finditer` skips no match: none starts before the next one it reports. */
  lemma {:induction false} MatchesGap(hits: set<nat>, t: string, i: nat)
    requires i <= |t|
    ensures NoHits(hits, t, i, NextMatch(hits, t, i))
    decreases |t| - i
  {
    if i + 1 < |t| && i !in hits {
      MatchesGap(hits, t, i + 1);
    }
  }

  /** After the `k`-th reported match, `finditer` resumes with the matches that follow it. */
  lemma {:induction false} MatchesResume(hits: set<nat>, t: string, i: nat, k: nat)
    requires i <= |t|
    requires k < |Matches(hits, t, i)|
    ensures Matches(hits, t, Matches(hits, t, i)[k] + 2) == Matches(hits, t, i)[k + 1..]
    decreases |t| - i
  {
    var ms := Matches(hits, t, i);
    if i in hits {
      var rest := Matches(hits, t, i + 2);
      assert ms == [i] + rest;
      if k == 0 {
        assert ms[1..] == rest;
      } else {
        MatchesResume(hits, t, i + 2, k - 1);
        assert ms[k] == rest[k - 1];
        assert ms[k + 1..] == rest[k..];
      }
    } else {
      MatchesResume(hits, t, i + 1, k);
    }
  }

  /** Cutting `text[..m]` at the pair `[p, p + 2)`. */
  lemma Regroup(text: string, p: nat, m: nat, tail: string)
    requires p + 2 <= m <= |text|
    ensures text[..m] + tail == text[..p] + text[p..p + 2] + (text[p + 2..m] + tail)
  {
    assert text[..m] == text[..p] + text[p..p + 2] + text[p + 2..m];
  }

  /** One step of the right-to-left loop: the pair at `p` before the already handled rest. */
  lemma {:induction false} LoopStep(hits: set<nat>, text: string, escape: set<nat>, ms: seq<nat>, k: nat, q: nat, result: string)
    requires ms == Matches(hits, text, 0) && k < |ms|
    requires q == if k + 1 < |ms| then ms[k + 1] else |text|
    requires result == text[..q] + Out(hits, text, escape, q)
    ensures ms[k] + 2 <= q
    ensures result == text[..ms[k]] + text[ms[k]..ms[k] + 2] + Out(hits, text, escape, ms[k] + 2)
  {
    var p := ms[k];
    MatchesResume(hits, text, 0, k);
    MatchesGap(hits, text, p + 2);
    OutSkip(hits, text, escape, p + 2, q);
    Regroup(text, p, q, Out(hits, text, escape, q));
  }

  /** At a match, the pass writes the piece for it and continues after the pair. */
  lemma OutAtHit(hits: set<nat>, t: string, escape: set<nat>, p: nat)
    requires p + 1 < |t| && p in hits
    ensures Out(hits, t, escape, p) == Piece(t, escape, p) + Out(hits, t, escape, p + 2)
  {
  }

  /** Splicing a replacement for the pair at `p` into `text[..p] + pair + tail`. */
  lemma Splice(text: string, p: nat, tail: string, result: string)
    requires p + 1 < |text|
    requires result == text[..p] + text[p..p + 2] + tail
    ensures result[..p] + ['\\', text[p], '\\', text[p + 1]] + result[p + 2..]
      == text[..p] + (['\\', text[p], '\\', text[p + 1]] + tail)
    ensures result == text[..p] + (text[p..p + 2] + tail)
  {
    assert result[..p] == text[..p];
    assert result[p + 2..] == tail;
  }

  /** The loop's test on the partly rewritten text is the decision `Decide` made on the input. */
  lemma DecideAt(pass: Pass, text: string, regions: seq<Region>, result: string, p: nat)
    requires p + 1 < |text| && p <= |result| && result[..p] == text[..p]
    ensures p in Decide(pass, text, regions)
        <==> !InCodeContext(p, regions) && (pass != Colons || !Contains(Before(result, p), "http"))
  {
    assert Before(result, p) == Before(text, p);
  }

  /**
   * The source's loop, as written: walk the matches right to left and splice
   * the escaped pair into `result`. It computes the left-to-right `EscapePass`.
   */
  method EscapePassLoop(pass: Pass, text: string, regions: seq<Region>) returns (result: string)
    ensures result == EscapePass(pass, text, regions)
  {
    var hits := Hits(pass, text);
    ghost var escape := Decide(pass, text, regions);
    var ms := Matches(hits, text, 0);
    result := text;
    var k := |ms|;
    ghost var q := |text|;
    while k > 0
      invariant 0 <= k <= |ms|
      invariant q == if k < |ms| then ms[k] else |text|
      invariant q <= |text| && result == text[..q] + Out(hits, text, escape, q)
    {
      k := k - 1;
      var p := ms[k];
      LoopStep(hits, text, escape, ms, k, q, result);
      OutAtHit(hits, text, escape, p);
      Splice(text, p, Out(hits, text, escape, p + 2), result);
      DecideAt(pass, text, regions, result, p);
      if !InCodeContext(p, regions) && (pass != Colons || !Contains(Before(result, p), "http")) {
        result := result[..p] + ['\\', text[p], '\\', text[p + 1]] + result[p + 2..];
      }
      q := p;
    }
    MatchesGap(hits, text, 0);
    OutSkip(hits, text, escape, 0, q);
  }

  /** `\x\y` is `xy` with two backslashes inserted. */
  lemma EscapedPairInserts(a: char, b: char)
    ensures InsertsBackslashes([a, b], ['\\', a, '\\', b])
  {
    assert InsertsBackslashes([], []);
    assert InsertsBackslashes([b], [b]) by { assert [b][1..] == []; }
    assert InsertsBackslashes([b], ['\\', b]) by { assert ['\\', b][1..] == [b]; }
    assert InsertsBackslashes([a, b], [a, '\\', b]) by {
      assert [a, b][1..] == [b];
      assert [a, '\\', b][1..] == ['\\', b];
    }
    assert ['\\', a, '\\', b][1..] == [a, '\\', b];
  }

  /** A pass only ever inserts backslashes: deleting them gives its input back. */
  lemma {:induction false} OutInsertsBackslashes(hits: set<nat>, t: string, escape: set<nat>, i: nat)
    requires i <= |t|
    ensures InsertsBackslashes(t[i..], Out(hits, t, escape, i))
    decreases |t| - i
  {
    if i + 1 >= |t| {
      InsertsBackslashesRefl(t[i..]);
    } else {
      var next := if i in hits then i + 2 else i + 1;
      var head := t[i..next];
      OutInsertsBackslashes(hits, t, escape, next);
      if i in hits && i in escape {
        EscapedPairInserts(t[i], t[i + 1]);
        assert head == [t[i], t[i + 1]];
      } else {
        InsertsBackslashesRefl(head);
      }
      InsertsBackslashesAppend(head, if i in hits then Piece(t, escape, i) else head, t[next..], Out(hits, t, escape, next));
      SuffixSplit(t, i, next);
    }
  }

  /** When no match is to be escaped, a pass returns its input unchanged. */
  lemma {:induction false} OutIdentity(hits: set<nat>, t: string, escape: set<nat>, i: nat)
    requires i <= |t|
    requires forall p :: p in hits ==> p !in escape
    ensures Out(hits, t, escape, i) == t[i..]
    decreases |t| - i
  {
    if i + 1 < |t| {
      var next := if i in hits then i + 2 else i + 1;
      OutIdentity(hits, t, escape, next);
      SuffixSplit(t, i, next);
    }
  }

  /**
   * `escape_logseq_special_syntax` as written: the code regions of the
   * original text are used for all three passes.
   */
  function EscapeLogseqSyntax(text: string): string
  {
    var regions := ExtractCodeBlocks(text);
    var t1 := EscapePass(Braces, text, regions);
    var t2 := EscapePass(Colons, t1, regions);
    EscapePass(Parens, t2, regions)
  }

  /** The three loops of the source, one after the other. */
  method EscapeLogseqSyntaxLoops(text: string) returns (result: string)
    ensures result == EscapeLogseqSyntax(text)
  {
    var regions := ExtractCodeBlocks(text);
    result := EscapePassLoop(Braces, text, regions);
    result := EscapePassLoop(Colons, result, regions);
    result := EscapePassLoop(Parens, result, regions);
  }

  /**
   * The corrected function: each pass tests match offsets against the code
   * regions of the text it scans, so offsets and regions refer to the same string.
   */
  function EscapeLogseqSyntaxFixed(text: string): string
  {
    var t1 := EscapePass(Braces, text, ExtractCodeBlocks(text));
    var t2 := EscapePass(Colons, t1, ExtractCodeBlocks(t1));
    EscapePass(Parens, t2, ExtractCodeBlocks(t2))
  }

  lemma PassInsertsBackslashes(pass: Pass, t: string, regions: seq<Region>)
    ensures InsertsBackslashes(t, EscapePass(pass, t, regions))
  {
    OutInsertsBackslashes(Hits(pass, t), t, Decide(pass, t, regions), 0);
    assert t[0..] == t;
  }

  /**
   * Both versions only insert backslashes; on text without backslashes,
   * deleting them all recovers the input.
   */
  lemma EscapeInsertsOnlyBackslashes(text: string)
    ensures InsertsBackslashes(text, EscapeLogseqSyntax(text))
    ensures InsertsBackslashes(text, EscapeLogseqSyntaxFixed(text))
    ensures !ContainsChar(text, '\\') ==> DropBackslashes(EscapeLogseqSyntax(text)) == text
    ensures !ContainsChar(text, '\\') ==> DropBackslashes(EscapeLogseqSyntaxFixed(text)) == text
  {
    var regions := ExtractCodeBlocks(text);
    var t1 := EscapePass(Braces, text, regions);
    var t2 := EscapePass(Colons, t1, regions);
    PassInsertsBackslashes(Braces, text, regions);
    PassInsertsBackslashes(Colons, t1, regions);
    PassInsertsBackslashes(Parens, t2, regions);
    InsertsBackslashesTrans(text, t1, t2);
    InsertsBackslashesTrans(text, t2, EscapeLogseqSyntax(text));
    var f1 := EscapePass(Braces, text, ExtractCodeBlocks(text));
    var f2 := EscapePass(Colons, f1, ExtractCodeBlocks(f1));
    PassInsertsBackslashes(Colons, f1, ExtractCodeBlocks(f1));
    PassInsertsBackslashes(Parens, f2, ExtractCodeBlocks(f2));
    InsertsBackslashesTrans(text, f1, f2);
    InsertsBackslashesTrans(text, f2, EscapeLogseqSyntaxFixed(text));
    if !ContainsChar(text, '\\') {
      DropUndoesInsertion(text, EscapeLogseqSyntax(text));
      DropUndoesInsertion(text, EscapeLogseqSyntaxFixed(text));
    }
  }

  /** A pass leaves its input alone when every match lies in code or after "http". */
  lemma PassIdentity(pass: Pass, t: string, regions: seq<Region>)
    requires forall p: nat :: PairAt(pass, t, p) ==> !Escapes(pass, t, p, regions)
    ensures EscapePass(pass, t, regions) == t
  {
    OutIdentity(Hits(pass, t), t, Decide(pass, t, regions), 0);
  }

  lemma PieceInserts(t: string, escape: set<nat>, p: nat)
    requires p + 1 < |t|
    ensures InsertsBackslashes(t[p..p + 2], Piece(t, escape, p))
  {
    assert t[p..p + 2] == [t[p], t[p + 1]];
    if p in escape {
      EscapedPairInserts(t[p], t[p + 1]);
    } else {
      InsertsBackslashesRefl(t[p..p + 2]);
    }
  }

  /** The left-to-right scan from `i` passes through offset `p`. */
  predicate Reaches(hits: set<nat>, t: string, i: nat, p: nat)
    decreases |t| - i
  {
    i == p || (i < p && i + 1 < |t| && Reaches(hits, t, Step(hits, i), p))
  }

  /** Every reported match is an offset the scan passes through. */
  lemma {:induction false} MatchesReached(hits: set<nat>, t: string, i: nat, p: nat)
    requires i <= |t| && p in Matches(hits, t, i)
    ensures Reaches(hits, t, i, p)
    decreases |t| - i
  {
    if p != i {
      MatchesReached(hits, t, Step(hits, i), p);
    }
  }

  /** What the scan writes from `i` until it reaches `p`. */
  function OutTo(hits: set<nat>, t: string, escape: set<nat>, i: nat, p: nat): string
    requires Reaches(hits, t, i, p)
    decreases |t| - i
  {
    if i == p then [] else Head(hits, t, escape, i) + OutTo(hits, t, escape, Step(hits, i), p)
  }

  lemma {:induction false} OutSplits(hits: set<nat>, t: string, escape: set<nat>, i: nat, p: nat)
    requires i <= |t| && Reaches(hits, t, i, p)
    ensures p <= |t|
    ensures Out(hits, t, escape, i) == OutTo(hits, t, escape, i, p) + Out(hits, t, escape, p)
    decreases |t| - i
  {
    if i != p {
      var j := Step(hits, i);
      OutSplits(hits, t, escape, j, p);
      ConcatAssoc(Head(hits, t, escape, i), OutTo(hits, t, escape, j, p), Out(hits, t, escape, p));
    }
  }

  /** `OutTo` is the text up to `p` with backslashes inserted. */
  lemma {:induction false} OutToInserts(hits: set<nat>, t: string, escape: set<nat>, i: nat, p: nat)
    requires i <= |t| && Reaches(hits, t, i, p)
    ensures i <= p <= |t|
    ensures InsertsBackslashes(t[i..p], OutTo(hits, t, escape, i, p))
    decreases |t| - i
  {
    if i == p {
      InsertsBackslashesRefl(t[i..p]);
    } else {
      var j := Step(hits, i);
      OutToInserts(hits, t, escape, j, p);
      var head := if i in hits then Piece(t, escape, i) else [t[i]];
      if i in hits {
        PieceInserts(t, escape, i);
      } else {
        InsertsBackslashesRefl(t[i..j]);
      }
      InsertsBackslashesAppend(t[i..j], head, t[j..p], OutTo(hits, t, escape, j, p));
      assert t[i..p] == t[i..j] + t[j..p];
    }
  }

  /**
   * A pass keeps verbatim every match it finds inside the code regions it is
   * given: the output is an escaped copy of the text before the match, the
   * pair itself, then the output after it.
   */
  lemma PassKeepsCode(pass: Pass, t: string, regions: seq<Region>, p: nat)
    requires p in Matches(Hits(pass, t), t, 0)
    requires InCodeContext(p, regions)
    ensures exists pre ::
              && InsertsBackslashes(t[..p], pre)
              && EscapePass(pass, t, regions) == pre + t[p..p + 2] + Out(Hits(pass, t), t, Decide(pass, t, regions), p + 2)
  {
    var hits := Hits(pass, t);
    var escape := Decide(pass, t, regions);
    MatchesReached(hits, t, 0, p);
    OutSplits(hits, t, escape, 0, p);
    OutToInserts(hits, t, escape, 0, p);
    OutAtHit(hits, t, escape, p);
    assert t[0..p] == t[..p];
    var pre := OutTo(hits, t, escape, 0, p);
    assert Piece(t, escape, p) == t[p..p + 2] by {
      assert p !in escape;
    }
    ConcatAssoc(pre, t[p..p + 2], Out(hits, t, escape, p + 2));
  }

  /**
   * The corrected function's intent: in each pass, a match that lies in
   * inline code or a fence of the text being scanned is left as it is.
   */
  lemma FixedPassKeepsCode(pass: Pass, t: string, p: nat)
    requires p in Matches(Hits(pass, t), t, 0)
    requires InCodeContext(p, ExtractCodeBlocks(t))
    ensures exists pre ::
              && InsertsBackslashes(t[..p], pre)
                      && EscapePass(pass, t, ExtractCodeBlocks(t))
                 == pre + t[p..p + 2] + Out(Hits(pass, t), t, Decide(pass, t, ExtractCodeBlocks(t)), p + 2)
  {
    PassKeepsCode(pass, t, ExtractCodeBlocks(t), p);
  }

  /**
   * The other half: a match the pass decides to rewrite, outside the code
   * regions it is given, comes out as `\x\y`.
   */
  lemma PassEscapesPair(pass: Pass, t: string, regions: seq<Region>, p: nat)
    requires p in Matches(Hits(pass, t), t, 0)
    requires Escapes(pass, t, p, regions)
    ensures exists pre ::
              && InsertsBackslashes(t[..p], pre)
              && EscapePass(pass, t, regions) == pre + ['\\', t[p], '\\', t[p + 1]] + Out(Hits(pass, t), t, Decide(pass, t, regions), p + 2)
  {
    var hits := Hits(pass, t);
    var escape := Decide(pass, t, regions);
    MatchesReached(hits, t, 0, p);
    OutSplits(hits, t, escape, 0, p);
    OutToInserts(hits, t, escape, 0, p);
    OutAtHit(hits, t, escape, p);
    assert t[0..p] == t[..p];
    var pre := OutTo(hits, t, escape, 0, p);
    var piece := ['\\', t[p], '\\', t[p + 1]];
    assert Piece(t, escape, p) == piece by {
      assert p in escape;
    }
    ConcatAssoc(pre, piece, Out(hits, t, escape, p + 2));
  }

  /**
   * The corrected function's promise for the whole text: when every match of
   * the three patterns lies in inline code or a fence, nothing is escaped.
   */
  lemma FixedKeepsCodeText(text: string)
    requires forall pass: Pass, p: nat :: PairAt(pass, text, p) ==> InCodeContext(p, ExtractCodeBlocks(text))
    ensures EscapeLogseqSyntaxFixed(text) == text
  {
    var regions := ExtractCodeBlocks(text);
    PassIdentity(Braces, text, regions);
    PassIdentity(Colons, text, regions);
    PassIdentity(Parens, text, regions);
  }

  /**
   * In the corrected function, a match of a pass outside the code of the
   * text that pass scans, and for `::` not after "http", comes out as `\x\y`.
   */
  lemma FixedPassEscapes(pass: Pass, t: string, p: nat)
    requires p in Matches(Hits(pass, t), t, 0)
    requires Escapes(pass, t, p, ExtractCodeBlocks(t))
    ensures exists pre ::
              && InsertsBackslashes(t[..p], pre)
              && EscapePass(pass, t, ExtractCodeBlocks(t))
                 == pre + ['\\', t[p], '\\', t[p + 1]] + Out(Hits(pass, t), t, Decide(pass, t, ExtractCodeBlocks(t)), p + 2)
  {
    PassEscapesPair(pass, t, ExtractCodeBlocks(t), p);
  }

  /** A text whose only backticks are an inline span `[a, b)` has that one code region. */
  lemma OneInlineRegion(s: string, a: nat, b: nat)
    requires a + 3 <= b == |s| && s[a] == '`' && s[b - 1] == '`'
    requires forall k :: 0 <= k < |s| && k != a && k != b - 1 ==> s[k] != '`' && s[k] != '\n'
    ensures ExtractCodeBlocks(s) == [Region(a, b, InlineCode)]
  {
    forall x | 0 <= x && x + 3 <= |s|
      ensures !OccursAt(s, Ticks, x)
    {
      assert s[x..x + 3][0] == s[x] && s[x..x + 3][1] == s[x + 1];
    }
    assert InlineCodes(s, b) == [];
    assert FirstIn(s, {'`', '\n'}, a + 1) == b - 1;
    InlineCodesSkip(s, 0, a);
  }

  /** No backtick in `[i, j)`: the inline scan moves straight on to `j`. */
  lemma {:induction false} InlineCodesSkip(s: string, i: nat, j: nat)
    requires i <= j <= |s|
    requires forall k :: i <= k < j ==> s[k] != '`'
    ensures InlineCodes(s, i) == InlineCodes(s, j)
    decreases j - i
  {
    if i < j {
      InlineCodesSkip(s, i + 1, j);
    }
  }

  /** "http" does not occur in a string without an 'h'. */
  lemma NoHttp(s: string)
    requires !ContainsChar(s, 'h')
    ensures !Contains(s, "http")
  {
    forall i | 0 <= i && i + 4 <= |s|
      ensures !OccursAt(s, "http", i)
    {
      assert s[i..i + 4][0] == s[i];
    }
  }

  const StaleExample: string := "{{}}`::`"

  lemma StaleExampleRegions()
    ensures ExtractCodeBlocks(StaleExample) == [Region(4, 8, InlineCode)]
  {
    OneInlineRegion(StaleExample, 4, 8);
  }

  lemma StaleExampleFirstPass()
    ensures EscapePass(Braces, StaleExample, [Region(4, 8, InlineCode)]) == "\\{\\{\\}\\}`::`"
  {
    var t := StaleExample;
    var regions := [Region(4, 8, InlineCode)];
    var hits := Hits(Braces, t);
    var escape := Decide(Braces, t, regions);
    assert 0 in hits && 2 in hits;
    assert 0 in escape && 2 in escape;
    assert NoHits(hits, t, 4, 8);
    OutSkip(hits, t, escape, 4, 8);
    OutAtHit(hits, t, escape, 2);
    OutAtHit(hits, t, escape, 0);
  }

  const StaleFirst: string := "\\{\\{\\}\\}`::`"

  /** As written, the second pass escapes the `::` at 9, inside the inline code `[8, 12)` of its input. */
  lemma StaleExampleSecondPass()
    ensures EscapePass(Colons, StaleFirst, [Region(4, 8, InlineCode)]) == "\\{\\{\\}\\}`\\:\\:`"
  {
    var t := StaleFirst;
    var hits := Hits(Colons, t);
    OnlyColonsAtNine();
    var escape := Decide(Colons, t, [Region(4, 8, InlineCode)]);
    NoHttp(Before(t, 9));
    assert 9 in escape;
    OutSkip(hits, t, escape, 0, 9);
    OutAtHit(hits, t, escape, 9);
    ConcatAssoc(t[0..9], Piece(t, escape, 9), Out(hits, t, escape, 11));
  }

  lemma OnlyColonsAtNine()
    ensures forall p: nat :: PairAt(Colons, StaleFirst, p) <==> p == 9
  {
  }

  /** With the regions of its own input, the second pass leaves that `::` alone. */
  lemma StaleExampleSecondPassFixed()
    ensures ExtractCodeBlocks(StaleFirst) == [Region(8, 12, InlineCode)]
    ensures EscapePass(Colons, StaleFirst, [Region(8, 12, InlineCode)]) == StaleFirst
  {
    OneInlineRegion(StaleFirst, 8, 12);
    OnlyColonsAtNine();
    PassIdentity(Colons, StaleFirst, [Region(8, 12, InlineCode)]);
  }

  const StaleSecond: string := "\\{\\{\\}\\}`\\:\\:`"

  lemma StaleExampleThirdPass()
    ensures EscapePass(Parens, StaleSecond, [Region(4, 8, InlineCode)]) == StaleSecond
  {
    assert forall p: nat :: !PairAt(Parens, StaleSecond, p);
    PassIdentity(Parens, StaleSecond, [Region(4, 8, InlineCode)]);
  }

  lemma StaleExampleThirdPassFixed()
    ensures EscapePass(Parens, StaleFirst, [Region(8, 12, InlineCode)]) == StaleFirst
  {
    assert forall p: nat :: !PairAt(Parens, StaleFirst, p);
    PassIdentity(Parens, StaleFirst, [Region(8, 12, InlineCode)]);
  }

  /**
   * The discrepancy: on "{{}}`::`" the source escapes the `::` that sits in
   * inline code once the first pass has shifted it past the old region;
   * with regions recomputed per pass it stays as it is.
   */
  lemma StaleRegionsCounterexample()
    ensures EscapeLogseqSyntax(StaleExample) == StaleSecond
    ensures EscapeLogseqSyntaxFixed(StaleExample) == StaleFirst
  {
    StaleExampleRegions();
    StaleExampleFirstPass();
    StaleExampleSecondPass();
    StaleExampleSecondPassFixed();
    StaleExampleThirdPass();
    StaleExampleThirdPassFixed();
  }
}
