/**
 The hand-written pre-tokenizers, against the patterns they stand for.

 A pattern means what an ordered-choice, greedy, backtracking matcher finds first.
 */
module Pretokens {
  import opened Wrappers

  // ---------- Characters ----------

  /** Unicode's letters, numbers, White_Space and case folding, as far as the patterns rely on them. */
  datatype Unicode = Unicode(letter: char -> bool, number: char -> bool, space: char -> bool, fold: string -> string) {
    ghost predicate Sound() {
      && (forall c :: !(letter(c) && number(c)) && !(letter(c) && space(c)) && !(number(c) && space(c)))
      && space('\r') && space('\n') && space(' ')
      // folding never shortens, and only an apostrophe folds to one
      && (forall s :: |fold(s)| >= |s|)
      && (forall s :: s != "" && fold(s) != "" && fold(s)[0] == '\'' ==> s[0] == '\'')
    }

    predicate Other(c: char) {
      !space(c) && !letter(c) && !number(c)
    }

    predicate Prefix(c: char) {
      !Newline(c) && !letter(c) && !number(c)
    }
  }

  predicate Newline(c: char) {
    c == '\r' || c == '\n'
  }

  /** A character is exactly one of a letter, a number, a space and a symbol; a prefix is a symbol or a space but no line break. */
  lemma CharKinds(u: Unicode, c: char)
    requires u.Sound()
    ensures u.letter(c) || u.number(c) || u.space(c) || u.Other(c)
    ensures u.Other(c) ==> !u.letter(c) && !u.number(c) && !u.space(c)
    ensures u.Prefix(c) <==> (u.Other(c) || u.space(c)) && c != '\r' && c != '\n'
  {
  }

  predicate Blank(c: char) {
    c == ' '
  }

  const CONTRACTIONS: seq<string> := ["'s", "'t", "'re", "'ve", "'m", "'ll", "'d"]

  // ---------- Patterns ----------

  datatype Regex =
    | One(member: char -> bool)
    | Many(member: char -> bool)                 // greedy *
    | NotBefore(member: char -> bool)            // negative lookahead
    | Word(word: string)
    | Folded(word: string)                       // a word under case folding
    | Cat(first: Regex, second: Regex)
    | Alt(either: Regex, or: Regex)
    | Opt(part: Regex)                           // greedy ?

  function Plus(member: char -> bool): Regex {
    Cat(One(member), Many(member))
  }

  predicate Within(ends: seq<nat>, lo: nat, hi: nat) {
    forall k :: 0 <= k < |ends| ==> lo <= ends[k] <= hi
  }

  /** Where a match starting at `i` can end, in the order backtracking tries them. */
  ghost function Ends(u: Unicode, re: Regex, text: string, i: nat): seq<nat>
    requires i <= |text|
    ensures Within(Ends(u, re, text, i), i, |text|)
    decreases re, 1, |text| - i
  {
    match re
    case One(member) => if i < |text| && member(text[i]) then [i + 1] else []
    case Many(member) => if i < |text| && member(text[i]) then Ends(u, re, text, i + 1) + [i] else [i]
    case NotBefore(member) => if i < |text| && member(text[i]) then [] else [i]
    case Word(word) => if word <= text[i..] then [i + |word|] else []
    case Folded(word) => FoldEnds(u, word, text, i, 1)
    case Cat(first, second) => EndsFrom(u, second, text, i, Ends(u, first, text, i))
    case Alt(either, or) => Ends(u, either, text, i) + Ends(u, or, text, i)
    case Opt(part) => Ends(u, part, text, i) + [i]
  }

  ghost function EndsFrom(u: Unicode, re: Regex, text: string, i: nat, starts: seq<nat>): seq<nat>
    requires i <= |text| && Within(starts, i, |text|)
    ensures Within(EndsFrom(u, re, text, i, starts), i, |text|)
    decreases re, 2, |starts|
  {
    if starts == [] then []
    else Ends(u, re, text, starts[0]) + EndsFrom(u, re, text, i, starts[1..])
  }

  // Slices from `length` on whose folding is the word, shortest first.
  ghost function FoldEnds(u: Unicode, word: string, text: string, i: nat, length: nat): seq<nat>
    requires i <= |text|
    ensures Within(FoldEnds(u, word, text, i, length), i, |text|)
    decreases |text| - i + 1 - length
  {
    if i + length > |text| then []
    else if u.fold(text[i..i + length]) == word then [i + length] + FoldEnds(u, word, text, i, length + 1)
    else FoldEnds(u, word, text, i, length + 1)
  }

  /** What the matcher finds at `i`: the end it reaches first. */
  ghost function First(u: Unicode, re: Regex, text: string, i: nat): (found: Option<nat>)
    requires i <= |text|
    ensures found.Some? ==> i <= found.value <= |text|
  {
    var ends := Ends(u, re, text, i);
    if ends == [] then None else Some(ends[0])
  }

  function AnyOf(words: seq<string>, folded: bool): Regex
    requires words != []
  {
    var first := if folded then Folded(words[0]) else Word(words[0]);
    if |words| == 1 then first else Alt(first, AnyOf(words[1..], folded))
  }

  // [^\r\n\p{L}\p{N}]?\p{L}+
  function PrefixedLetters(u: Unicode): Regex { Cat(Opt(One(c => u.Prefix(c))), Plus(u.letter)) }

  //  ?[^\s\p{L}\p{N}]+[\r\n]*
  function Symbols(u: Unicode): Regex { Cat(Opt(One(Blank)), Cat(Plus(c => u.Other(c)), Many(Newline))) }

  // \s*[\r\n]+
  function SpaceToNewlines(u: Unicode): Regex { Cat(Many(u.space), Plus(Newline)) }

  // \s+(?!\S)
  function TrailingSpace(u: Unicode): Regex { Cat(Plus(u.space), NotBefore(c => !u.space(c))) }

  /** Qwen's pre-token pattern. */
  function QwenPattern(u: Unicode): Regex {
    Alt(AnyOf(CONTRACTIONS, true),
        Alt(PrefixedLetters(u),
            Alt(One(u.number),
                Alt(Symbols(u), Alt(SpaceToNewlines(u), Alt(TrailingSpace(u), Plus(u.space)))))))
  }

  //  ?X+
  function Run(member: char -> bool): Regex { Cat(Opt(One(Blank)), Plus(member)) }

  /** The GPT-2 pre-token pattern. */
  function Gpt2Pattern(u: Unicode): Regex {
    Alt(AnyOf(CONTRACTIONS, false),
        Alt(Run(u.letter), Alt(Run(u.number), Alt(Run(c => u.Other(c)), Alt(TrailingSpace(u), Plus(u.space))))))
  }

  // ---------- What the pieces of a pattern find ----------

  /** The end of the run of members starting at `i`. */
  function RunEnd(text: string, i: nat, member: char -> bool): (end: nat)
    requires i <= |text|
    ensures i <= end <= |text|
    ensures forall k :: i <= k < end ==> member(text[k])
    ensures end < |text| ==> !member(text[end])
    decreases |text| - i
  {
    if i < |text| && member(text[i]) then RunEnd(text, i + 1, member) else i
  }

  // A greedy star tries its run's end first, then each position before it.
  lemma {:induction false} ManyEnds(u: Unicode, member: char -> bool, text: string, i: nat)
    requires i <= |text|
    ensures var ends := Ends(u, Many(member), text, i);
            && |ends| == RunEnd(text, i, member) - i + 1
            && forall k :: 0 <= k < |ends| ==> ends[k] == RunEnd(text, i, member) - k
    decreases |text| - i
  {
    if i < |text| && member(text[i]) {
      ManyEnds(u, member, text, i + 1);
    }
  }

  lemma PlusEnds(u: Unicode, member: char -> bool, text: string, i: nat)
    requires i <= |text|
    ensures var ends := Ends(u, Plus(member), text, i);
            && |ends| == RunEnd(text, i, member) - i
            && forall k :: 0 <= k < |ends| ==> ends[k] == RunEnd(text, i, member) - k
  {
    if i < |text| && member(text[i]) {
      ManyEnds(u, member, text, i + 1);
      OneStart(u, Many(member), text, i, i + 1);
    }
  }

  lemma OneStart(u: Unicode, re: Regex, text: string, i: nat, start: nat)
    requires i <= start <= |text|
    ensures EndsFrom(u, re, text, i, [start]) == Ends(u, re, text, start)
  {
    assert EndsFrom(u, re, text, i, [start][1..]) == [];
  }

  // The first start the rest can go on from decides.
  lemma {:induction false} FirstStart(u: Unicode, re: Regex, text: string, i: nat, starts: seq<nat>, k: nat)
    requires i <= |text| && Within(starts, i, |text|)
    requires k <= |starts| && forall j :: 0 <= j < k ==> Ends(u, re, text, starts[j]) == []
    ensures k == |starts| ==> EndsFrom(u, re, text, i, starts) == []
    ensures k < |starts| && Ends(u, re, text, starts[k]) != [] ==>
              EndsFrom(u, re, text, i, starts) != [] && EndsFrom(u, re, text, i, starts)[0] == Ends(u, re, text, starts[k])[0]
    decreases |starts|
  {
    if starts != [] && k > 0 {
      assert Ends(u, re, text, starts[0]) == [];
      FirstStart(u, re, text, i, starts[1..], k - 1);
    }
  }

  lemma FirstAlt(u: Unicode, either: Regex, or: Regex, text: string, i: nat)
    requires i <= |text|
    ensures First(u, Alt(either, or), text, i)
         == if First(u, either, text, i).Some? then First(u, either, text, i) else First(u, or, text, i)
  {
  }

  // An optional character, then a run: the run may start after it or at once.
  lemma FirstOptRun(u: Unicode, member: char -> bool, re: Regex, text: string, i: nat)
    requires i <= |text|
    ensures First(u, Cat(Opt(One(member)), re), text, i)
         == if i < |text| && member(text[i]) && First(u, re, text, i + 1).Some? then First(u, re, text, i + 1)
            else First(u, re, text, i)
  {
    var starts := Ends(u, Opt(One(member)), text, i);
    assert starts == Ends(u, One(member), text, i) + [i];
    if i < |text| && member(text[i]) {
      assert starts == [i + 1, i];
      if Ends(u, re, text, i + 1) == [] {
        FirstStart(u, re, text, i, starts, 1);
        if Ends(u, re, text, i) == [] {
          FirstStart(u, re, text, i, starts, 2);
        }
      } else {
        FirstStart(u, re, text, i, starts, 0);
      }
    } else {
      assert starts == [i];
      OneStart(u, re, text, i, i);
    }
  }

  lemma FirstPlus(u: Unicode, member: char -> bool, text: string, i: nat)
    requires i <= |text|
    ensures First(u, Plus(member), text, i)
         == if i < |text| && member(text[i]) then Some(RunEnd(text, i, member)) else None
  {
    PlusEnds(u, member, text, i);
  }

  /** The first contraction that matches, in pattern order. */
  ghost function FirstOf(u: Unicode, words: seq<string>, folded: bool, text: string, i: nat): Option<nat>
    requires i <= |text|
    decreases |words|
  {
    if words == [] then None
    else
      var first := First(u, if folded then Folded(words[0]) else Word(words[0]), text, i);
      if first.Some? then first else FirstOf(u, words[1..], folded, text, i)
  }

  lemma {:induction false} FirstAnyOf(u: Unicode, words: seq<string>, folded: bool, text: string, i: nat)
    requires i <= |text| && words != []
    ensures First(u, AnyOf(words, folded), text, i) == FirstOf(u, words, folded, text, i)
    decreases |words|
  {
    if |words| > 1 {
      FirstAnyOf(u, words[1..], folded, text, i);
      FirstAlt(u, if folded then Folded(words[0]) else Word(words[0]), AnyOf(words[1..], folded), text, i);
    } else {
      assert words[1..] == [];
    }
  }

  lemma {:induction false} FoldEndsFrom(u: Unicode, word: string, text: string, i: nat, length: nat)
    requires u.Sound() && i <= |text| && 1 <= length
    ensures length > |word| ==> FoldEnds(u, word, text, i, length) == []
    ensures FoldEnds(u, word, text, i, length) != [] ==>
              i < |text| && word != "" && (word[0] == '\'' ==> text[i] == '\'')
    decreases |text| - i + 1 - length
  {
    if i + length <= |text| {
      FoldEndsFrom(u, word, text, i, length + 1);
      var slice := text[i..i + length];
      assert |u.fold(slice)| >= |slice| == length && slice[0] == text[i];
    }
  }

  lemma FirstPrefixedLetters(u: Unicode, text: string, i: nat)
    requires i < |text|
    ensures First(u, PrefixedLetters(u), text, i)
         == if u.Prefix(text[i]) && i + 1 < |text| && u.letter(text[i + 1]) then Some(RunEnd(text, i + 1, u.letter))
            else if u.letter(text[i]) then Some(RunEnd(text, i, u.letter))
            else None
  {
    FirstOptRun(u, c => u.Prefix(c), Plus(u.letter), text, i);
    FirstPlus(u, u.letter, text, i);
    FirstPlus(u, u.letter, text, i + 1);
  }

  lemma FirstPlusMany(u: Unicode, member: char -> bool, after: char -> bool, text: string, i: nat)
    requires i <= |text|
    ensures First(u, Cat(Plus(member), Many(after)), text, i)
         == if i < |text| && member(text[i]) then Some(RunEnd(text, RunEnd(text, i, member), after)) else None
  {
    PlusEnds(u, member, text, i);
    ManyEnds(u, after, text, RunEnd(text, i, member));
    FirstStart(u, Many(after), text, i, Ends(u, Plus(member), text, i), 0);
  }

  lemma FirstSymbols(u: Unicode, text: string, i: nat)
    requires i < |text|
    ensures var j := if Blank(text[i]) && i + 1 < |text| && u.Other(text[i + 1]) then i + 1 else i;
            First(u, Symbols(u), text, i)
            == if u.Other(text[j]) then Some(RunEnd(text, RunEnd(text, j, c => u.Other(c)), Newline)) else None
  {
    var other := c => u.Other(c);
    FirstOptRun(u, Blank, Cat(Plus(other), Many(Newline)), text, i);
    FirstPlusMany(u, other, Newline, text, i);
    FirstPlusMany(u, other, Newline, text, i + 1);
  }

  lemma FirstRun(u: Unicode, member: char -> bool, text: string, i: nat)
    requires i < |text|
    ensures var j := if Blank(text[i]) && i + 1 < |text| && member(text[i + 1]) then i + 1 else i;
            First(u, Run(member), text, i) == if member(text[j]) then Some(RunEnd(text, j, member)) else None
  {
    FirstOptRun(u, Blank, Plus(member), text, i);
    FirstPlus(u, member, text, i);
    FirstPlus(u, member, text, i + 1);
  }

  /** One past the last newline in `text[start..end]`, or `start`. */
  function LastNewline(text: string, start: nat, end: nat): (last: nat)
    requires start <= end <= |text|
    ensures start <= last <= end
    ensures last > start ==> Newline(text[last - 1])
    ensures forall k :: last <= k < end ==> !Newline(text[k])
    decreases end
  {
    if end == start then start
    else if Newline(text[end - 1]) then end
    else LastNewline(text, start, end - 1)
  }

  // Past the last newline no newline run starts.
  lemma NoNewlineStart(u: Unicode, text: string, i: nat, start: nat)
    requires u.Sound() && i <= |text| && i <= start <= RunEnd(text, i, u.space)
    requires start >= LastNewline(text, i, RunEnd(text, i, u.space))
    ensures Ends(u, Plus(Newline), text, start) == []
  {
    PlusEnds(u, Newline, text, start);
  }

  lemma LastNewlineStart(u: Unicode, text: string, i: nat)
    requires u.Sound() && i <= |text|
    requires LastNewline(text, i, RunEnd(text, i, u.space)) > i
    ensures var last := LastNewline(text, i, RunEnd(text, i, u.space));
            Ends(u, Plus(Newline), text, last - 1) != [] && Ends(u, Plus(Newline), text, last - 1)[0] == last
  {
    var last := LastNewline(text, i, RunEnd(text, i, u.space));
    PlusEnds(u, Newline, text, last - 1);
    assert RunEnd(text, last - 1, Newline) == RunEnd(text, last, Newline) == last;
  }

  lemma FirstSpaceToNewlines(u: Unicode, text: string, i: nat)
    requires u.Sound() && i <= |text|
    ensures var last := LastNewline(text, i, RunEnd(text, i, u.space));
            First(u, SpaceToNewlines(u), text, i) == if last > i then Some(last) else None
  {
    hide *;
    var k := RunEnd(text, i, u.space);
    var last := LastNewline(text, i, k);
    ManyEnds(u, u.space, text, i);
    var starts := Ends(u, Many(u.space), text, i);
    forall j | 0 <= j < |starts| && starts[j] >= last
      ensures Ends(u, Plus(Newline), text, starts[j]) == []
    {
      NoNewlineStart(u, text, i, starts[j]);
    }
    CatEnds(u, Many(u.space), Plus(Newline), text, i);
    assert SpaceToNewlines(u) == Cat(Many(u.space), Plus(Newline)) by { SpaceToNewlinesIs(u); }
    if last > i {
      LastNewlineStart(u, text, i);
      assert starts[k - (last - 1)] == last - 1;
      FirstStart(u, Plus(Newline), text, i, starts, k - (last - 1));
    } else {
      FirstStart(u, Plus(Newline), text, i, starts, |starts|);
    }
    FirstIs(u, SpaceToNewlines(u), text, i);
  }

  lemma SpaceToNewlinesIs(u: Unicode)
    ensures SpaceToNewlines(u) == Cat(Many(u.space), Plus(Newline))
  {
  }

  lemma CatEnds(u: Unicode, first: Regex, second: Regex, text: string, i: nat)
    requires i <= |text|
    ensures Within(Ends(u, first, text, i), i, |text|)
    ensures Ends(u, Cat(first, second), text, i) == EndsFrom(u, second, text, i, Ends(u, first, text, i))
  {
  }

  lemma FirstIs(u: Unicode, re: Regex, text: string, i: nat)
    requires i <= |text|
    ensures First(u, re, text, i) == if Ends(u, re, text, i) == [] then None else Some(Ends(u, re, text, i)[0])
  {
  }

  lemma FirstTrailingSpace(u: Unicode, text: string, i: nat)
    requires i <= |text|
    ensures var k := RunEnd(text, i, u.space);
            First(u, TrailingSpace(u), text, i)
            == if k == |text| && k > i then Some(k) else if k - i >= 2 then Some(k - 1) else None
  {
    var k := RunEnd(text, i, u.space);
    var solid := NotBefore(c => !u.space(c));
    PlusEnds(u, u.space, text, i);
    var starts := Ends(u, Plus(u.space), text, i);
    if k == i {
      FirstStart(u, solid, text, i, starts, 0);
    } else {
      assert starts[0] == k;
      assert Ends(u, solid, text, k) == if k == |text| then [k] else [];
      if k == |text| {
        FirstStart(u, solid, text, i, starts, 0);
      } else if k - i >= 2 {
        assert starts[1] == k - 1 && Ends(u, solid, text, k - 1) == [k - 1];
        FirstStart(u, solid, text, i, starts, 1);
      } else {
        FirstStart(u, solid, text, i, starts, 1);
      }
    }
  }

  // ---------- The hand-written matchers ----------

  /** The slice `text[i:i + length]`, cut at the end of the text. */
  function Slice(text: string, i: nat, length: nat): string
    requires i <= |text|
  {
    if i + length <= |text| then text[i..i + length] else text[i..]
  }

  method ScanRun(text: string, i: nat, member: char -> bool) returns (end: nat)
    requires i <= |text|
    ensures end == RunEnd(text, i, member)
  {
    end := i;
    while end < |text| && member(text[end])
      invariant i <= end <= |text| && RunEnd(text, end, member) == RunEnd(text, i, member)
    {
      end := end + 1;
    }
  }

  /** The source slice of a contraction at `i`, compared under case folding; empty when there is none. */
  method ContractionAt(u: Unicode, text: string, i: nat) returns (slice: string)
    requires u.Sound() && i < |text|
    ensures var found := FirstOf(u, CONTRACTIONS, true, text, i);
            if found.Some? then slice != "" && slice == text[i..found.value] else slice == ""
  {
    if text[i] != '\'' {
      NoApostrophe(u, text, i, 0);
      return "";
    }
    var w := 0;
    while w < |CONTRACTIONS|
      invariant 0 <= w <= |CONTRACTIONS|
      invariant FirstOf(u, CONTRACTIONS[w..], true, text, i) == FirstOf(u, CONTRACTIONS, true, text, i)
    {
      assert CONTRACTIONS[w..][0] == CONTRACTIONS[w] && CONTRACTIONS[w..][1..] == CONTRACTIONS[w + 1..];
      slice := FoldedAt(u, CONTRACTIONS[w], text, i);
      if slice != "" {
        return;
      }
      w := w + 1;
    }
    slice := "";
  }

  /** The shortest slice at `i` that folds to the word; empty when there is none. */
  method FoldedAt(u: Unicode, word: string, text: string, i: nat) returns (slice: string)
    requires u.Sound() && i < |text|
    ensures var found := First(u, Folded(word), text, i);
            if found.Some? then slice != "" && slice == text[i..found.value] else slice == ""
  {
    var length := 1;
    while length < |word| + 2
      invariant 1 <= length <= |word| + 2
      invariant forall l :: 1 <= l < length ==> u.fold(Slice(text, i, l)) != word
      invariant FoldEnds(u, word, text, i, length) == FoldEnds(u, word, text, i, 1)
    {
      assert i + length > |text| ==> Slice(text, i, length) == Slice(text, i, |text| - i);
      if u.fold(Slice(text, i, length)) == word {
        return Slice(text, i, length);
      }
      length := length + 1;
    }
    FoldEndsFrom(u, word, text, i, length);
    slice := "";
  }

  lemma {:induction false} NoApostrophe(u: Unicode, text: string, i: nat, w: nat)
    requires u.Sound() && i < |text| && text[i] != '\'' && w <= |CONTRACTIONS|
    ensures FirstOf(u, CONTRACTIONS[w..], true, text, i).None?
    ensures w == 0 ==> FirstOf(u, CONTRACTIONS, true, text, i).None?
    decreases |CONTRACTIONS| - w
  {
    assert CONTRACTIONS[0..] == CONTRACTIONS;
    if w < |CONTRACTIONS| {
      NoApostrophe(u, text, i, w + 1);
      FoldEndsFrom(u, CONTRACTIONS[w], text, i, 1);
      assert CONTRACTIONS[w][0] == '\'';
      assert CONTRACTIONS[w..][0] == CONTRACTIONS[w] && CONTRACTIONS[w..][1..] == CONTRACTIONS[w + 1..];
    }
  }

  /** The end of the trailing newline run inside `text[start..end]`, or `start`. */
  method LastNewlineRun(text: string, start: nat, end: nat) returns (last: nat)
    requires start <= end <= |text| && (end < |text| ==> !Newline(text[end]))
    ensures last == LastNewline(text, start, end)
  {
    last := start;
    var i := start;
    while i < end
      invariant start <= last <= i <= end
      invariant last > start ==> Newline(text[last - 1])
      invariant forall k :: last <= k < i ==> !Newline(text[k])
      decreases end - i
    {
      if Newline(text[i]) {
        i := ScanRun(text, i, Newline);
        last := i;
      } else {
        i := i + 1;
      }
    }
  }

  /** The whitespace alternatives, in order. */
  method QwenSpace(u: Unicode, text: string, i: nat) returns (piece: string)
    requires u.Sound() && i < |text| && u.space(text[i])
    ensures var rest := Alt(SpaceToNewlines(u), Alt(TrailingSpace(u), Plus(u.space)));
            var found := First(u, rest, text, i);
            found.Some? && found.value > i && piece == text[i..found.value]
  {
    FirstAlt(u, SpaceToNewlines(u), Alt(TrailingSpace(u), Plus(u.space)), text, i);
    FirstAlt(u, TrailingSpace(u), Plus(u.space), text, i);
    FirstSpaceToNewlines(u, text, i);
    FirstTrailingSpace(u, text, i);
    FirstPlus(u, u.space, text, i);
    var k := ScanRun(text, i, u.space);
    assert k > i;
    var nl := LastNewlineRun(text, i, k);
    if nl > i {
      return text[i..nl];
    }
    if k < |text| && k - i >= 2 {
      return text[i..k - 1];
    }
    piece := text[i..k];
  }

  /** One Qwen pre-token: what the pattern finds first, and never nothing. */
  method QwenPiece(u: Unicode, text: string, i: nat) returns (piece: string)
    requires u.Sound() && i < |text|
    ensures var found := First(u, QwenPattern(u), text, i);
            found.Some? && found.value > i && piece == text[i..found.value]
  {
    QwenAlternatives(u, text, i);
    FirstPrefixedLetters(u, text, i);
    FirstSymbols(u, text, i);
    hide First, Ends, EndsFrom, FirstOf, AnyOf, Plus, SpaceToNewlines, TrailingSpace, Symbols, PrefixedLetters,
         QwenPattern, RunEnd;
    var contraction := ContractionAt(u, text, i);
    if contraction != "" {
      return contraction;
    }
    var head := text[i];
    if u.letter(head) {
      var end := ScanRun(text, i, u.letter);
      return text[i..end];
    }
    if !Newline(head) && !u.number(head) && i + 1 < |text| && u.letter(text[i + 1]) {
      var end := ScanRun(text, i + 1, u.letter);
      return text[i..end];
    }
    if u.number(head) {
      return [head];
    }
    var j := if head == ' ' && i + 1 < |text| then i + 1 else i;
    if u.Other(text[j]) {
      var end := ScanRun(text, j, c => u.Other(c));
      end := ScanRun(text, end, Newline);
      return text[i..end];
    }
    piece := QwenSpace(u, text, i);
  }

  // The pattern's alternatives in order, each with what it finds.
  lemma QwenAlternatives(u: Unicode, text: string, i: nat)
    requires u.Sound() && i < |text|
    ensures var spaces := Alt(SpaceToNewlines(u), Alt(TrailingSpace(u), Plus(u.space)));
            var contraction := FirstOf(u, CONTRACTIONS, true, text, i);
            var letters := First(u, PrefixedLetters(u), text, i);
            var symbols := First(u, Symbols(u), text, i);
            First(u, QwenPattern(u), text, i)
            == if contraction.Some? then contraction
               else if letters.Some? then letters
               else if u.number(text[i]) then Some(i + 1)
               else if symbols.Some? then symbols
               else First(u, spaces, text, i)
  {
    var spaces := Alt(SpaceToNewlines(u), Alt(TrailingSpace(u), Plus(u.space)));
    var symbols := Alt(Symbols(u), spaces);
    var numbers := Alt(One(u.number), symbols);
    var letters := Alt(PrefixedLetters(u), numbers);
    assert First(u, One(u.number), text, i) == if u.number(text[i]) then Some(i + 1) else None;
    hide First, Ends, EndsFrom, FirstOf, AnyOf, Plus, SpaceToNewlines, TrailingSpace, Symbols, PrefixedLetters;
    FirstAnyOf(u, CONTRACTIONS, true, text, i);
    FirstAlt(u, AnyOf(CONTRACTIONS, true), letters, text, i);
    FirstAlt(u, PrefixedLetters(u), numbers, text, i);
    FirstAlt(u, One(u.number), symbols, text, i);
    FirstAlt(u, Symbols(u), spaces, text, i);
  }

  // The GPT-2 pattern's alternatives in order, each with what it finds.
  lemma Gpt2Alternatives(u: Unicode, text: string, i: nat)
    requires u.Sound() && i < |text|
    ensures var spaces := Alt(TrailingSpace(u), Plus(u.space));
            var contraction := FirstOf(u, CONTRACTIONS, false, text, i);
            var letters := First(u, Run(u.letter), text, i);
            var numbers := First(u, Run(u.number), text, i);
            var others := First(u, Run(c => u.Other(c)), text, i);
            First(u, Gpt2Pattern(u), text, i)
            == if contraction.Some? then contraction
               else if letters.Some? then letters
               else if numbers.Some? then numbers
               else if others.Some? then others
               else First(u, spaces, text, i)
  {
    var spaces := Alt(TrailingSpace(u), Plus(u.space));
    var others := Alt(Run(c => u.Other(c)), spaces);
    var numbers := Alt(Run(u.number), others);
    var letters := Alt(Run(u.letter), numbers);
    hide First, Ends, EndsFrom, FirstOf, AnyOf, Plus, TrailingSpace, Run;
    FirstAnyOf(u, CONTRACTIONS, false, text, i);
    FirstAlt(u, AnyOf(CONTRACTIONS, false), letters, text, i);
    FirstAlt(u, Run(u.letter), numbers, text, i);
    FirstAlt(u, Run(u.number), others, text, i);
    FirstAlt(u, Run(c => u.Other(c)), spaces, text, i);
  }

  // The same, read off the character after an optional blank.
  lemma Gpt2Found(u: Unicode, text: string, i: nat)
    requires u.Sound() && i < |text|
    ensures var contraction := FirstOf(u, CONTRACTIONS, false, text, i);
            var j := if text[i] == ' ' && i + 1 < |text| then i + 1 else i;
            var k := RunEnd(text, i, u.space);
            First(u, Gpt2Pattern(u), text, i)
            == if contraction.Some? then contraction
               else if u.letter(text[j]) then Some(RunEnd(text, j, u.letter))
               else if u.number(text[j]) then Some(RunEnd(text, j, u.number))
               else if u.Other(text[j]) then Some(RunEnd(text, j, c => u.Other(c)))
               else if k < |text| && k - i >= 2 then Some(k - 1)
               else Some(k)
    ensures var j := if text[i] == ' ' && i + 1 < |text| then i + 1 else i;
            !u.letter(text[j]) && !u.number(text[j]) && !u.Other(text[j]) ==> RunEnd(text, i, u.space) > i
  {
    hide First, Ends, EndsFrom, FirstOf, AnyOf, Plus, TrailingSpace, Run, Gpt2Pattern, RunEnd;
    Gpt2Alternatives(u, text, i);
    FirstRun(u, u.letter, text, i);
    FirstRun(u, u.number, text, i);
    FirstRun(u, c => u.Other(c), text, i);
    FirstAlt(u, TrailingSpace(u), Plus(u.space), text, i);
    FirstTrailingSpace(u, text, i);
    FirstPlus(u, u.space, text, i);
  }

  lemma FirstWord(u: Unicode, word: string, text: string, i: nat)
    requires i <= |text|
    ensures First(u, Word(word), text, i) == if word <= text[i..] then Some(i + |word|) else None
  {
  }

  lemma ContractionStep(u: Unicode, w: nat, text: string, i: nat)
    requires w < |CONTRACTIONS| && i <= |text|
    ensures CONTRACTIONS[w] != ""
    ensures FirstOf(u, CONTRACTIONS[w..], false, text, i)
         == if CONTRACTIONS[w] <= text[i..] then Some(i + |CONTRACTIONS[w]|) else FirstOf(u, CONTRACTIONS[w + 1..], false, text, i)
  {
    assert CONTRACTIONS[w..][0] == CONTRACTIONS[w] && CONTRACTIONS[w..][1..] == CONTRACTIONS[w + 1..];
    FirstWord(u, CONTRACTIONS[w], text, i);
  }

  lemma NoContraction(u: Unicode, text: string, i: nat)
    requires i <= |text|
    ensures CONTRACTIONS[0..] == CONTRACTIONS && FirstOf(u, CONTRACTIONS[|CONTRACTIONS|..], false, text, i) == None
  {
  }

  /** A text has a contraction exactly where an apostrophe is followed by s, t, m or d, or by re, ve or ll. */
  lemma ContractionsExactly(u: Unicode, text: string, i: nat)
    requires i < |text|
    ensures FirstOf(u, CONTRACTIONS, false, text, i).Some? <==>
              && text[i] == '\'' && i + 1 < |text|
              && (text[i + 1] in "stmd"
                  || (i + 2 < |text| && ((text[i + 1] == 'r' && text[i + 2] == 'e') || (text[i + 1] == 'v' && text[i + 2] == 'e')
                                         || (text[i + 1] == 'l' && text[i + 2] == 'l'))))
    ensures var found := FirstOf(u, CONTRACTIONS, false, text, i);
            found.Some? ==> found.value == if text[i + 1] in "stmd" then i + 2 else i + 3
  {
    NoContraction(u, text, i);
    ContractionStep(u, 0, text, i);
    ContractionStep(u, 1, text, i);
    ContractionStep(u, 2, text, i);
    ContractionStep(u, 3, text, i);
    ContractionStep(u, 4, text, i);
    ContractionStep(u, 5, text, i);
    ContractionStep(u, 6, text, i);
    hide FirstOf;
  }

  /** The literal contraction the text has at `i`; empty when there is none. */
  method LiteralContractionAt(u: Unicode, text: string, i: nat) returns (found: string)
    requires i < |text|
    ensures var first := FirstOf(u, CONTRACTIONS, false, text, i);
            if first.Some? then first.value > i && found == text[i..first.value] else found == ""
  {
    hide FirstOf, CONTRACTIONS;
    NoContraction(u, text, i);
    var w := 0;
    while w < |CONTRACTIONS|
      invariant 0 <= w <= |CONTRACTIONS|
      invariant FirstOf(u, CONTRACTIONS[w..], false, text, i) == FirstOf(u, CONTRACTIONS, false, text, i)
    {
      var word := CONTRACTIONS[w];
      ContractionStep(u, w, text, i);
      if word <= text[i..] {
        return word;
      }
      w := w + 1;
    }
    found := "";
  }

  /** One GPT-2 pre-token: what the pattern finds first, and never nothing. */
  method Gpt2Piece(u: Unicode, text: string, i: nat) returns (piece: string)
    requires u.Sound() && i < |text|
    ensures var found := First(u, Gpt2Pattern(u), text, i);
            found.Some? && found.value > i && piece == text[i..found.value]
  {
    hide *;
    Gpt2Found(u, text, i);
    var contraction := LiteralContractionAt(u, text, i);
    if contraction != "" {
      return contraction;
    }
    var j := if text[i] == ' ' && i + 1 < |text| then i + 1 else i;
    var head := text[j];
    if u.letter(head) {
      var end := ScanRun(text, j, u.letter);
      return text[i..end];
    }
    if u.number(head) {
      var end := ScanRun(text, j, u.number);
      return text[i..end];
    }
    if u.Other(head) {
      var end := ScanRun(text, j, c => u.Other(c));
      return text[i..end];
    }
    var k := ScanRun(text, i, u.space);
    if k < |text| && k - i >= 2 {
      return text[i..k - 1];
    }
    piece := text[i..k];
  }

  // ---------- Splitting a whole text ----------

  /** Every match of a pattern, left to right, each search starting where the last match ended. */
  ghost function Matches(u: Unicode, re: Regex, text: string, i: nat): seq<string>
    requires i <= |text|
    decreases |text| - i
  {
    if i == |text| then []
    else
      var found := First(u, re, text, i);
      if found.Some? && found.value > i then [text[i..found.value]] + Matches(u, re, text, found.value)
      else Matches(u, re, text, i + 1)
  }

  function Joined(pieces: seq<string>): string {
    if pieces == [] then "" else Joined(pieces[..|pieces| - 1]) + pieces[|pieces| - 1]
  }

  lemma SplitStep(u: Unicode, re: Regex, text: string, i: nat, pieces: seq<string>, all: seq<string>, end: nat)
    requires i < end <= |text|
    requires First(u, re, text, i) == Some(end)
    requires pieces + Matches(u, re, text, i) == all && Joined(pieces) == text[..i]
    ensures pieces + [text[i..end]] + Matches(u, re, text, end) == all
    ensures Joined(pieces + [text[i..end]]) == text[..end]
  {
    hide First, Ends, EndsFrom;
    assert (pieces + [text[i..end]])[..|pieces|] == pieces;
    assert text[..i] + text[i..end] == text[..end];
    assert pieces + [text[i..end]] + Matches(u, re, text, end) == pieces + ([text[i..end]] + Matches(u, re, text, end));
  }

  /** The GPT-2 pre-tokens: the pattern's matches, and together the whole text. */
  method Gpt2Split(u: Unicode, text: string) returns (pieces: seq<string>)
    requires u.Sound()
    ensures pieces == Matches(u, Gpt2Pattern(u), text, 0)
    ensures Joined(pieces) == text
    ensures forall k :: 0 <= k < |pieces| ==> pieces[k] != ""
  {
    hide First, Matches, Gpt2Pattern;
    pieces := [];
    var i := 0;
    ghost var all := Matches(u, Gpt2Pattern(u), text, 0);
    while i < |text|
      invariant i <= |text|
      invariant pieces + Matches(u, Gpt2Pattern(u), text, i) == all && Joined(pieces) == text[..i]
      invariant forall k :: 0 <= k < |pieces| ==> pieces[k] != ""
    {
      var piece := Gpt2Piece(u, text, i);
      SplitStep(u, Gpt2Pattern(u), text, i, pieces, all, i + |piece|);
      pieces := pieces + [piece];
      i := i + |piece|;
    }
    NoMatches(u, Gpt2Pattern(u), text);
    assert text[..i] == text;
  }

  /** The Qwen pre-tokens: the pattern's matches, and together the whole text. */
  method QwenSplit(u: Unicode, text: string) returns (pieces: seq<string>)
    requires u.Sound()
    ensures pieces == Matches(u, QwenPattern(u), text, 0)
    ensures Joined(pieces) == text
    ensures forall k :: 0 <= k < |pieces| ==> pieces[k] != ""
  {
    hide First, Matches, QwenPattern;
    pieces := [];
    var i := 0;
    ghost var all := Matches(u, QwenPattern(u), text, 0);
    while i < |text|
      invariant i <= |text|
      invariant pieces + Matches(u, QwenPattern(u), text, i) == all && Joined(pieces) == text[..i]
      invariant forall k :: 0 <= k < |pieces| ==> pieces[k] != ""
    {
      var piece := QwenPiece(u, text, i);
      SplitStep(u, QwenPattern(u), text, i, pieces, all, i + |piece|);
      pieces := pieces + [piece];
      i := i + |piece|;
    }
    NoMatches(u, QwenPattern(u), text);
    assert text[..i] == text;
  }

  lemma NoMatches(u: Unicode, re: Regex, text: string)
    ensures Matches(u, re, text, |text|) == []
  {
  }
}
