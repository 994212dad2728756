/**
 * `parseInstructions` of the recipe page: a recipe's free-text instructions
 * become a list of steps by removing HTML tags, splitting on numbered-list
 * markers and line breaks, and dropping blank pieces.
 */
module Instructions {
  import opened Wrappers
  import opened Sequences
  import opened JsText

  const NoInstructions: string := "No instructions available"
  const NotRecognized: string := "Instructions format not recognized"

  // ---------------------------------------------------------------------------
  // Removing HTML tags: `replace(/<[^>]*>/g, "")`
  // ---------------------------------------------------------------------------

  /** Position of the first `c` in `s`, or `|s|` when there is none. */
  function IndexOf(s: string, c: char): (k: nat)
    ensures k <= |s|
    ensures forall i | 0 <= i < k :: s[i] != c
    ensures k < |s| ==> s[k] == c
  {
    if s == [] || s[0] == c then 0 else 1 + IndexOf(s[1..], c)
  }

  /**
   * The global replacement of `<[^>]*>` by nothing. Scanning left to right, a
   * `<` that has a `>` somewhere after it starts a tag that runs to the first
   * such `>` and is removed; a `<` without a later `>` is kept like any other
   * character.
   */
  function StripTags(s: string): (r: string)
    ensures |r| <= |s|
    decreases |s|
  {
    if s == [] then []
    else if s[0] == '<' && IndexOf(s[1..], '>') < |s| - 1 then
      StripTags(s[IndexOf(s[1..], '>') + 2..])
    else
      [s[0]] + StripTags(s[1..])
  }

  /** No `<` of `t` is followed, anywhere later, by a `>`: `t` holds no tag. */
  predicate TagFree(t: string) {
    forall i | 0 <= i < |t| && t[i] == '<' :: '>' !in t[i + 1..]
  }

  /** Stripping only deletes characters: the result is a subsequence of the input. */
  lemma {:induction false} StripTagsDeletesOnly(s: string)
    ensures IsSubsequence(StripTags(s), s)
    decreases |s|
  {
    if s != [] {
      var k := IndexOf(s[1..], '>');
      if s[0] == '<' && k < |s| - 1 {
        StripTagsDeletesOnly(s[k + 2..]);
        SubsequenceOfSuffix(StripTags(s), s, k + 2);
      } else {
        StripTagsDeletesOnly(s[1..]);
        assert ([s[0]] + StripTags(s[1..]))[1..] == StripTags(s[1..]);
      }
    }
  }

  /** The stripped text holds no tag: no `<` in it has a `>` after it. */
  lemma {:induction false} StripTagsLeavesNoTag(s: string)
    ensures TagFree(StripTags(s))
    decreases |s|
  {
    if s != [] {
      var k := IndexOf(s[1..], '>');
      if s[0] == '<' && k < |s| - 1 {
        StripTagsLeavesNoTag(s[k + 2..]);
      } else {
        var tail := StripTags(s[1..]);
        var r := [s[0]] + tail;
        StripTagsLeavesNoTag(s[1..]);
        if s[0] == '<' {
          // no '>' follows this '<' in the input, so none follows it in the output
          StripTagsDeletesOnly(s[1..]);
          SubsequenceMembers(tail, s[1..]);
          assert '>' !in s[1..];
        }
        forall i | 0 <= i < |r| && r[i] == '<'
          ensures '>' !in r[i + 1..]
        {
          if i > 0 {
            assert r[i + 1..] == tail[i..];
          } else {
            assert r[1..] == tail;
          }
        }
      }
    }
  }

  /** A tag-free text is left as it is. */
  lemma {:induction false} TagFreeIsFixed(t: string)
    requires TagFree(t)
    ensures StripTags(t) == t
    decreases |t|
  {
    if t != [] {
      assert t[0] == '<' ==> '>' !in t[1..];
      assert TagFree(t[1..]) by {
        forall i | 0 <= i < |t[1..]| && t[1..][i] == '<'
          ensures '>' !in t[1..][i + 1..]
        {
          assert t[1..][i + 1..] == t[i + 2..];
        }
      }
      TagFreeIsFixed(t[1..]);
      assert t == [t[0]] + t[1..];
    }
  }

  /** The texts that stripping leaves unchanged are exactly the tag-free ones. */
  lemma StripTagsFixedPoints(t: string)
    ensures StripTags(t) == t <==> TagFree(t)
  {
    StripTagsLeavesNoTag(t);
    if TagFree(t) {
      TagFreeIsFixed(t);
    }
  }

  /** Stripping twice removes nothing more than stripping once. */
  lemma StripTagsIdempotent(s: string)
    ensures StripTags(StripTags(s)) == StripTags(s)
  {
    StripTagsLeavesNoTag(s);
    TagFreeIsFixed(StripTags(s));
  }

  /** A whole tag as `<[^>]*>` matches it: `<`, then no `>`, then `>`. */
  predicate IsTag(t: string) {
    && |t| >= 2
    && t[0] == '<'
    && t[|t| - 1] == '>'
    && '>' !in t[1..|t| - 1]
  }

  /** Text before the first `<` is kept as it is. */
  lemma {:induction false} StripTagsKeepsPlainPrefix(u: string, v: string)
    requires '<' !in u
    ensures StripTags(u + v) == u + StripTags(v)
    decreases |u|
  {
    if u == [] {
      assert u + v == v;
    } else {
      assert (u + v)[0] == u[0];
      assert (u + v)[1..] == u[1..] + v;
      StripTagsKeepsPlainPrefix(u[1..], v);
      assert u == [u[0]] + u[1..];
    }
  }

  /**
   * A tag at the front is removed as a whole, and nothing else goes with it.
   * With StripTagsKeepsPlainPrefix and TagFreeIsFixed this pins StripTags
   * down on every text: plain text survives, tags vanish.
   */
  lemma StripTagsRemovesLeadingTag(t: string, v: string)
    requires IsTag(t)
    ensures StripTags(t + v) == StripTags(v)
  {
    var s := t + v;
    var k := IndexOf(s[1..], '>');
    assert forall i | 0 <= i < |t| - 2 :: s[1..][i] == t[1..|t| - 1][i];
    assert s[1..][|t| - 2] == '>';
    assert k == |t| - 2;
    assert s[k + 2..] == v;
  }

  // ---------------------------------------------------------------------------
  // Splitting into pieces: `split(/\d+\.\s|\n/)`
  // ---------------------------------------------------------------------------

  /** The language of the separator pattern: digits, a full stop and one whitespace, or a line feed. */
  predicate IsSeparator(t: string) {
    || t == "\n"
    || (&& |t| >= 3
        && (forall i | 0 <= i < |t| - 2 :: IsDigit(t[i]))
        && t[|t| - 2] == '.'
        && IsSpace(t[|t| - 1]))
  }

  /** End of the run of digits that starts at `i`. */
  function DigitRunEnd(s: string, i: nat): (k: nat)
    requires i <= |s|
    ensures i <= k <= |s|
    ensures forall j | i <= j < k :: IsDigit(s[j])
    ensures k < |s| ==> !IsDigit(s[k])
    decreases |s| - i
  {
    if i == |s| || !IsDigit(s[i]) then i else DigitRunEnd(s, i + 1)
  }

  /**
   * Length of the separator the pattern matches when tried at position `q`
   * exactly, or 0 when it does not match there: a run of digits must be
   * closed by a full stop and a whitespace; otherwise only a line feed
   * matches.
   */
  function SeparatorAt(s: string, q: nat): (n: nat)
    requires q <= |s|
    ensures q + n <= |s|
  {
    if q < |s| && IsDigit(s[q]) then
      var k := DigitRunEnd(s, q);
      if k + 1 < |s| && s[k] == '.' && IsSpace(s[k + 1]) then k + 2 - q else 0
    else if q < |s| && s[q] == '\n' then 1
    else 0
  }

  /**
   * SeparatorAt finds the separator at `q` whenever there is one. No separator
   * is a proper prefix of another, so at most one prefix of `s[q..]` is a
   * separator, and a match is exactly that prefix.
   */
  lemma SeparatorAtMatches(s: string, q: nat)
    requires q <= |s|
    ensures var n := SeparatorAt(s, q);
      && (n > 0 ==> IsSeparator(s[q..q + n]))
      && (n == 0 ==> forall m | q < m <= |s| :: !IsSeparator(s[q..m]))
  {
    if q < |s| && IsDigit(s[q]) {
      var k := DigitRunEnd(s, q);
      if k + 1 < |s| && s[k] == '.' && IsSpace(s[k + 1]) {
        var t := s[q..k + 2];
        assert forall i | 0 <= i < |t| - 2 :: t[i] == s[q + i];
      } else {
        NoDigitSeparatorAt(s, q, k);
      }
    } else if q < |s| && s[q] == '\n' {
      assert s[q..q + 1] == "\n";
    } else {
      assert forall m | q < m <= |s| :: s[q..m][0] == s[q];
    }
  }

  /**
   * The separator at `q` is the one SeparatorAt finds: since no separator is
   * a proper prefix of another, the match at a position is unique.
   */
  lemma SeparatorUnique(s: string, q: nat, m: nat)
    requires q < m <= |s| && IsSeparator(s[q..m])
    ensures SeparatorAt(s, q) == m - q
  {
    var t := s[q..m];
    assert t[0] == s[q];
    if s[q] != '\n' {
      assert forall i | q <= i < m - 2 :: IsDigit(s[i]) by {
        assert forall i | q <= i < m - 2 :: s[i] == t[i - q];
      }
      assert s[m - 2] == t[|t| - 2] && s[m - 1] == t[|t| - 1];
      var k := DigitRunEnd(s, q);
      assert k == m - 2;
    }
  }

  /** Helper of SeparatorAtMatches: when the digit run at `q` is not closed by a full stop and a whitespace, nothing matches at `q`. */
  lemma NoDigitSeparatorAt(s: string, q: nat, k: nat)
    requires q < |s| && IsDigit(s[q])
    requires k == DigitRunEnd(s, q)
    requires !(k + 1 < |s| && s[k] == '.' && IsSpace(s[k + 1]))
    ensures forall m | q < m <= |s| :: !IsSeparator(s[q..m])
  {
    forall m | q < m <= |s|
      ensures !IsSeparator(s[q..m])
    {
      var t := s[q..m];
      assert t[0] == s[q];
      if m - q >= 3 {
        assert t[|t| - 2] == s[m - 2] && t[|t| - 1] == s[m - 1];
        if k < m - 2 {
          // the digit run stops before the would-be full stop
          assert t[k - q] == s[k];
        } else if k > m - 2 {
          // the would-be full stop is a digit
          assert IsDigit(s[m - 2]);
        }
      }
    }
  }

  /** The pieces between separators, and the separators themselves, in order. */
  datatype Split = Split(pieces: seq<string>, separators: seq<string>)

  /** `pieces[0] + separators[0] + pieces[1] + ... + pieces[n]`. */
  function Interleave(pieces: seq<string>, separators: seq<string>): string
    requires |pieces| == |separators| + 1
    decreases |separators|
  {
    if separators == [] then pieces[0]
    else pieces[0] + separators[0] + Interleave(pieces[1..], separators[1..])
  }

  /**
   * The split loop of ECMAScript's RegExp.prototype[@@split]: the current
   * piece began at `p` and the pattern is next tried at exactly `q`; a match
   * closes the piece and the next one begins after the separator, otherwise
   * the attempt moves on by one character.
   */
  function SplitFrom(s: string, p: nat, q: nat): (r: Split)
    requires p <= q <= |s|
    ensures |r.pieces| == |r.separators| + 1
    decreases |s| - q
  {
    if q == |s| then Split([s[p..]], [])
    else
      var n := SeparatorAt(s, q);
      if n == 0 then SplitFrom(s, p, q + 1)
      else
        var rest := SplitFrom(s, q + n, q + n);
        Split([s[p..q]] + rest.pieces, [s[q..q + n]] + rest.separators)
  }

  /** No separator begins at any position of `s[a..b]` (it may end beyond `b`). */
  predicate NoSeparatorStarts(s: string, a: nat, b: nat)
    requires a <= b <= |s|
  {
    forall i | a <= i < b :: SeparatorAt(s, i) == 0
  }

  /** Where piece `k` begins in the text the pieces and separators rebuild. */
  function PieceStart(pieces: seq<string>, separators: seq<string>, k: nat): nat
    requires k <= |separators| && |pieces| == |separators| + 1
    decreases k
  {
    if k == 0 then 0
    else |pieces[0]| + |separators[0]| + PieceStart(pieces[1..], separators[1..], k - 1)
  }

  /** Interleaving the output of the split loop rebuilds `s[p..]`. */
  lemma {:induction false} SplitFromRebuilds(s: string, p: nat, q: nat)
    requires p <= q <= |s|
    ensures Interleave(SplitFrom(s, p, q).pieces, SplitFrom(s, p, q).separators) == s[p..]
    decreases |s| - q
  {
    if q < |s| {
      var n := SeparatorAt(s, q);
      if n == 0 {
        SplitFromRebuilds(s, p, q + 1);
      } else {
        var rest := SplitFrom(s, q + n, q + n);
        var r := SplitFrom(s, p, q);
        assert r == Split([s[p..q]] + rest.pieces, [s[q..q + n]] + rest.separators) by {
          SplitFromAtSeparator(s, p, q);
        }
        assert Interleave(r.pieces, r.separators) == s[p..q] + s[q..q + n] + s[q + n..] by {
          SplitFromRebuilds(s, q + n, q + n);
          InterleaveCons(s[p..q], s[q..q + n], rest.pieces, rest.separators);
        }
        SliceInThree(s, p, q, q + n);
      }
    }
  }

  /** One step of the split loop when the pattern matches at `q`. */
  lemma SplitFromAtSeparator(s: string, p: nat, q: nat)
    requires p <= q < |s| && SeparatorAt(s, q) > 0
    ensures var n := SeparatorAt(s, q);
      SplitFrom(s, p, q) == Split([s[p..q]] + SplitFrom(s, q + n, q + n).pieces,
                                  [s[q..q + n]] + SplitFrom(s, q + n, q + n).separators)
  {
  }

  lemma SliceInThree(s: string, a: nat, b: nat, c: nat)
    requires a <= b <= c <= |s|
    ensures s[a..] == s[a..b] + s[b..c] + s[c..]
  {
  }

  /** Unfolding Interleave once, at a piece and separator put in front. */
  lemma InterleaveCons(piece: string, separator: string, pieces: seq<string>, separators: seq<string>)
    requires |pieces| == |separators| + 1
    ensures Interleave([piece] + pieces, [separator] + separators)
            == piece + separator + Interleave(pieces, separators)
  {
    assert ([piece] + pieces)[1..] == pieces;
    assert ([separator] + separators)[1..] == separators;
  }

  /** Every separator the split loop consumes is one the pattern matches. */
  lemma {:induction false} SplitFromSeparators(s: string, p: nat, q: nat)
    requires p <= q <= |s|
    ensures forall t <- SplitFrom(s, p, q).separators :: IsSeparator(t)
    decreases |s| - q
  {
    if q < |s| {
      var n := SeparatorAt(s, q);
      if n == 0 {
        SplitFromSeparators(s, p, q + 1);
      } else {
        SeparatorAtMatches(s, q);
        SplitFromSeparators(s, q + n, q + n);
        SplitFromAtSeparator(s, p, q);
      }
    }
  }

  /** Each piece, placed at its start offset past `base`, lies in `s` and no separator begins inside it. */
  predicate PiecesAvoidSeparators(s: string, base: nat, r: Split)
    requires |r.pieces| == |r.separators| + 1
  {
    forall k | 0 <= k < |r.pieces| ::
      && base + PieceStart(r.pieces, r.separators, k) + |r.pieces[k]| <= |s|
      && NoSeparatorStarts(s, base + PieceStart(r.pieces, r.separators, k),
                           base + PieceStart(r.pieces, r.separators, k) + |r.pieces[k]|)
  }

  /** The split loop only closes a piece at a separator, so no separator begins inside a piece. */
  lemma {:induction false} SplitFromAvoidsSeparators(s: string, p: nat, q: nat)
    requires p <= q <= |s|
    requires NoSeparatorStarts(s, p, q)
    ensures PiecesAvoidSeparators(s, p, SplitFrom(s, p, q))
    decreases |s| - q
  {
    if q == |s| {
      LastPieceAvoidsSeparators(s, p);
    } else if SeparatorAt(s, q) == 0 {
      SplitFromNoMatch(s, p, q);
      SplitFromAvoidsSeparators(s, p, q + 1);
    } else {
      var n := SeparatorAt(s, q);
      var rest := SplitFrom(s, q + n, q + n);
      SplitFromAtSeparator(s, p, q);
      SplitFromAvoidsSeparators(s, q + n, q + n);
      AvoidSeparatorsCons(s, p, q, q + n, rest);
    }
  }

  /** The split loop at the end of the text: the piece being built is the last one. */
  lemma LastPieceAvoidsSeparators(s: string, p: nat)
    requires p <= |s|
    requires NoSeparatorStarts(s, p, |s|)
    ensures PiecesAvoidSeparators(s, p, SplitFrom(s, p, |s|))
  {
    assert SplitFrom(s, p, |s|) == Split([s[p..]], []);
    assert PieceStart([s[p..]], [], 0) == 0;
  }

  /** The split loop when the pattern does not match at `q`: the attempt moves on. */
  lemma SplitFromNoMatch(s: string, p: nat, q: nat)
    requires p <= q < |s|
    requires NoSeparatorStarts(s, p, q) && SeparatorAt(s, q) == 0
    ensures SplitFrom(s, p, q) == SplitFrom(s, p, q + 1)
    ensures NoSeparatorStarts(s, p, q + 1)
  {
  }

  /** Putting a piece free of separator starts, and a separator, in front of pieces that avoid separators. */
  lemma AvoidSeparatorsCons(s: string, p: nat, q: nat, e: nat, rest: Split)
    requires p <= q <= e <= |s|
    requires NoSeparatorStarts(s, p, q)
    requires |rest.pieces| == |rest.separators| + 1
    requires PiecesAvoidSeparators(s, e, rest)
    ensures PiecesAvoidSeparators(s, p, Split([s[p..q]] + rest.pieces, [s[q..e]] + rest.separators))
  {
    var r := Split([s[p..q]] + rest.pieces, [s[q..e]] + rest.separators);
    assert r.pieces[1..] == rest.pieces && r.separators[1..] == rest.separators;
    forall k | 1 <= k < |r.pieces|
      ensures p + PieceStart(r.pieces, r.separators, k) == e + PieceStart(rest.pieces, rest.separators, k - 1)
      ensures r.pieces[k] == rest.pieces[k - 1]
    {
    }
  }

  /** A step holds no line feed and no digit directly followed by a full stop and a whitespace. */
  predicate StepClean(t: string) {
    && (forall i | 0 <= i < |t| :: t[i] != '\n')
    && (forall i | 0 <= i < |t| - 2 :: !MarkerAt(t, i))
  }

  /** A digit, a full stop and a whitespace begin at position `i` of `t`. */
  predicate MarkerAt(t: string, i: nat)
    requires i + 2 < |t|
  {
    IsDigit(t[i]) && t[i + 1] == '.' && IsSpace(t[i + 2])
  }

  /** A stretch of `s` where no separator begins is a clean step. */
  lemma NoSeparatorMeansClean(s: string, a: nat, b: nat)
    requires a <= b <= |s|
    requires NoSeparatorStarts(s, a, b)
    ensures StepClean(s[a..b])
  {
    var t := s[a..b];
    forall i | 0 <= i < |t|
      ensures t[i] != '\n'
    {
      SeparatorAtMatches(s, a + i);
      assert s[a + i..a + i + 1] == [t[i]];
    }
    forall i | 0 <= i < |t| - 2
      ensures !MarkerAt(t, i)
    {
      SeparatorAtMatches(s, a + i);
      var u := s[a + i..a + i + 3];
      assert u == [t[i], t[i + 1], t[i + 2]];
      assert !IsSeparator(u);
    }
  }

  /** Piece `k` sits in the interleaved text at PieceStart. */
  lemma {:induction false} InterleavePieceAt(pieces: seq<string>, separators: seq<string>, k: nat)
    requires |pieces| == |separators| + 1 && k < |pieces|
    ensures var text, a := Interleave(pieces, separators), PieceStart(pieces, separators, k);
      a + |pieces[k]| <= |text| && text[a..a + |pieces[k]|] == pieces[k]
    decreases k
  {
    if k == 0 {
      if separators != [] {
        assert Interleave(pieces, separators)
            == pieces[0] + (separators[0] + Interleave(pieces[1..], separators[1..]));
      }
    } else {
      InterleavePieceAt(pieces[1..], separators[1..], k - 1);
      var head := pieces[0] + separators[0];
      var tail := Interleave(pieces[1..], separators[1..]);
      var a := PieceStart(pieces[1..], separators[1..], k - 1);
      assert Interleave(pieces, separators) == head + tail;
      assert (head + tail)[|head| + a..|head| + a + |pieces[k]|] == tail[a..a + |pieces[k]|];
    }
  }

  /**
   * `text.split(/\d+\.\s|\n/)` together with the separators it consumed. The
   * pieces and separators alternate and rebuild the text; every separator is
   * one the pattern matches; no separator begins inside a piece, so the
   * pieces are the contiguous stretches between leftmost matches, and none
   * holds a line feed or a "digit, full stop, whitespace" sequence.
   */
  function SplitSteps(text: string): (r: Split)
    ensures |r.pieces| == |r.separators| + 1
    ensures Interleave(r.pieces, r.separators) == text
    ensures forall t <- r.separators :: IsSeparator(t)
    ensures PiecesAvoidSeparators(text, 0, r)
    ensures forall piece <- r.pieces :: StepClean(piece)
  {
    SplitFromRebuilds(text, 0, 0);
    SplitFromSeparators(text, 0, 0);
    SplitFromAvoidsSeparators(text, 0, 0);
    var r := SplitFrom(text, 0, 0);
    PiecesAreClean(text, r);
    r
  }

  /** Helper of SplitSteps: pieces that rebuild `text` and contain no separator start are clean. */
  lemma PiecesAreClean(text: string, r: Split)
    requires |r.pieces| == |r.separators| + 1
    requires Interleave(r.pieces, r.separators) == text
    requires PiecesAvoidSeparators(text, 0, r)
    ensures forall piece <- r.pieces :: StepClean(piece)
  {
    forall k | 0 <= k < |r.pieces|
      ensures StepClean(r.pieces[k])
    {
      var a := PieceStart(r.pieces, r.separators, k);
      InterleavePieceAt(r.pieces, r.separators, k);
      NoSeparatorMeansClean(text, a, a + |r.pieces[k]|);
    }
  }

  // ---------------------------------------------------------------------------
  // Dropping blank pieces and the two fallbacks
  // ---------------------------------------------------------------------------

  /**
   * `pieces.filter((step) => step.trim().length > 0)`: the pieces that are not
   * all whitespace, untrimmed, in their order, with their repetitions.
   */
  function DropBlank(pieces: seq<string>): (kept: seq<string>)
    ensures forall piece <- kept :: !IsBlank(piece)
    ensures IsSubsequence(kept, pieces)
    ensures forall piece :: multiset(kept)[piece] == if IsBlank(piece) then 0 else multiset(pieces)[piece]
  {
    Filter(pieces, (step: string) => |Trim(step)| > 0)
  }

  /** JavaScript's `!instructions` for a string that may be null or undefined. */
  predicate IsFalsy(instructions: Option<string>) {
    instructions.None? || instructions.value == ""
  }

  /**
   * `parseInstructions`. A missing or empty text gives the "no instructions"
   * message; otherwise the text is stripped of tags, split, and its blank
   * pieces dropped, and when none is left the "not recognized" message is
   * given instead. The result is never empty; outside the two fallbacks it is
   * an order-preserving selection of the pieces, and every step in it holds a
   * non-whitespace character, no line feed and no "digit, full stop,
   * whitespace" sequence.
   */
  function ParseInstructions(instructions: Option<string>): (steps: seq<string>)
    ensures steps != []
    ensures IsFalsy(instructions) ==> steps == [NoInstructions]
    ensures || steps == [NoInstructions]
            || steps == [NotRecognized]
            || (&& !IsFalsy(instructions)
                && IsSubsequence(steps, SplitSteps(StripTags(instructions.value)).pieces)
                && forall st <- steps :: !IsBlank(st) && StepClean(st))
  {
    if IsFalsy(instructions) then [NoInstructions]
    else
      var pieces := SplitSteps(StripTags(instructions.value)).pieces;
      var steps := DropBlank(pieces);
      SubsequenceMembers(steps, pieces);
      if |steps| > 0 then steps else [NotRecognized]
  }

  /**
   * For a non-empty text: when every piece is blank the result is exactly the
   * "not recognized" message; otherwise the result is exactly the non-blank
   * pieces, untrimmed, in their order.
   */
  lemma ParseNonEmptyText(text: string)
    requires text != ""
    ensures var pieces, steps := SplitSteps(StripTags(text)).pieces, ParseInstructions(Some(text));
      && ((forall piece <- pieces :: IsBlank(piece)) ==> steps == [NotRecognized])
      && ((exists piece <- pieces :: !IsBlank(piece)) ==>
            && IsSubsequence(steps, pieces)
            && forall st :: multiset(steps)[st] == if IsBlank(st) then 0 else multiset(pieces)[st])
  {
    var pieces := SplitSteps(StripTags(text)).pieces;
    assert ParseInstructions(Some(text)) == if DropBlank(pieces) == [] then [NotRecognized] else DropBlank(pieces);
    DropBlankEmptyIffAllBlank(pieces);
  }

  /** Nothing survives the blank filter exactly when every piece is blank. */
  lemma DropBlankEmptyIffAllBlank(pieces: seq<string>)
    ensures DropBlank(pieces) == [] <==> forall piece <- pieces :: IsBlank(piece)
  {
    var kept := DropBlank(pieces);
    if piece :| piece in pieces && !IsBlank(piece) {
      assert multiset(kept)[piece] == multiset(pieces)[piece] > 0;
    } else {
      SubsequenceMembers(kept, pieces);
      if kept != [] {
        assert kept[0] in pieces;
      }
    }
  }
}
