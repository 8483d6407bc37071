/** `wrapText(text, c)` of src/script.js: greedy word wrapping of a text into lines of
    at most `c` characters, used to lay out the findings and the measurements in the
    PDF export. */
module Wrap {
  import opened Text

  /** The state of greedy wrapping over words: the groups of words already emitted as
      lines, and the words of the line being filled. */
  datatype Acc = Acc(done: seq<seq<string>>, open: seq<string>)

  /** One word of greedy wrapping: the word goes on the open line unless the line would
      then be longer than `c`; otherwise the open line is emitted (even when it holds no
      word yet) and the word starts the next one. */
  function Feed(a: Acc, w: string, c: nat): Acc {
    if |Join(a.open + [w])| > c then Acc(a.done + [a.open], [w])
    else Acc(a.done, a.open + [w])
  }

  /** Greedy wrapping of the words `ws`, before the last line is emitted. */
  function FeedAll(ws: seq<string>, c: nat): Acc {
    if ws == [] then Acc([], [])
    else Feed(FeedAll(ws[..|ws| - 1], c), ws[|ws| - 1], c)
  }

  /** The groups of words of the finished wrapping: the open line is emitted when it
      holds a word. */
  function Groups(ws: seq<string>, c: nat): seq<seq<string>> {
    var a := FeedAll(ws, c);
    if a.open == [] then a.done else a.done + [a.open]
  }

  /** Lines of the groups, each group joined by single spaces. */
  function Lines(gs: seq<seq<string>>): (r: seq<string>)
    ensures |r| == |gs|
    ensures forall i :: 0 <= i < |gs| ==> r[i] == Join(gs[i])
  {
    if gs == [] then [] else Lines(gs[..|gs| - 1]) + [Join(gs[|gs| - 1])]
  }

  /** Greedy wrapping of the words `ws` at width `c`, as lines. */
  function Wrapped(ws: seq<string>, c: nat): seq<string> {
    Lines(Groups(ws, c))
  }

  /** The concatenation of groups. */
  function Flatten(gs: seq<seq<string>>): seq<string> {
    if gs == [] then [] else Flatten(gs[..|gs| - 1]) + gs[|gs| - 1]
  }

  lemma {:induction false} FlattenSnoc(gs: seq<seq<string>>, g: seq<string>)
    ensures Flatten(gs + [g]) == Flatten(gs) + g
  {
    assert (gs + [g])[..|gs + [g]| - 1] == gs;
  }

  /** The emitted groups and the open line hold the words `ws`, in order, and the open
      line is empty only before the first word. */
  ghost predicate Covers(a: Acc, ws: seq<string>) {
    && Flatten(a.done) + a.open == ws
    && (ws == [] ==> a.done == [])
    && (ws == [] <==> a.open == [])
  }

  /** Only the first emitted group can be empty, and it is empty exactly when the first
      word alone is longer than `c`. */
  ghost predicate OnlyFirstEmpty(a: Acc, ws: seq<string>, c: nat) {
    && (forall i :: 0 < i < |a.done| ==> a.done[i] != [])
    && (ws != [] ==> (a.done != [] && a.done[0] == [] <==> |ws[0]| > c))
  }

  /** Every group, emitted or open, fits in `c` characters or is a single word. */
  ghost predicate Fits(a: Acc, c: nat) {
    && (forall i :: 0 <= i < |a.done| ==> |Join(a.done[i])| <= c || |a.done[i]| == 1)
    && (|Join(a.open)| <= c || |a.open| == 1)
  }

  /** The group that follows the emitted group `i`. */
  function Follower(a: Acc, i: nat): seq<string>
    requires i < |a.done|
  {
    if i + 1 < |a.done| then a.done[i + 1] else a.open
  }

  /** Every emitted group was closed because the first word of the next group did not
      fit on it. */
  ghost predicate Broken(a: Acc, c: nat) {
    forall i :: 0 <= i < |a.done| ==>
      Follower(a, i) != [] && |Join(a.done[i] + [Follower(a, i)[0]])| > c
  }

  /** What greedy wrapping keeps true after every word of `ws`. */
  ghost predicate Inv(a: Acc, ws: seq<string>, c: nat) {
    Covers(a, ws) && OnlyFirstEmpty(a, ws, c) && Fits(a, c) && Broken(a, c)
  }

  lemma FeedCovers(a: Acc, ws: seq<string>, w: string, c: nat)
    requires Covers(a, ws) && w != []
    ensures Covers(Feed(a, w, c), ws + [w])
  {
    var b := Feed(a, w, c);
    if |Join(a.open + [w])| > c {
      FlattenSnoc(a.done, a.open);
    }
  }

  lemma FeedOnlyFirstEmpty(a: Acc, ws: seq<string>, w: string, c: nat)
    requires Covers(a, ws) && OnlyFirstEmpty(a, ws, c) && w != []
    ensures OnlyFirstEmpty(Feed(a, w, c), ws + [w], c)
  {
    var b := Feed(a, w, c);
    if |Join(a.open + [w])| > c {
      if a.open == [] {
        assert ws == [] && b.done == [[]];
      } else {
        assert (ws + [w])[0] == ws[0];
      }
    } else if ws != [] {
      assert (ws + [w])[0] == ws[0];
    }
  }

  lemma FeedFits(a: Acc, w: string, c: nat)
    requires Fits(a, c)
    ensures Fits(Feed(a, w, c), c)
  {
  }

  lemma FeedBroken(a: Acc, ws: seq<string>, w: string, c: nat)
    requires Covers(a, ws) && Broken(a, c) && w != []
    ensures Broken(Feed(a, w, c), c)
  {
    var b := Feed(a, w, c);
    forall i | 0 <= i < |b.done|
      ensures Follower(b, i) != [] && |Join(b.done[i] + [Follower(b, i)[0]])| > c
    {
      if |Join(a.open + [w])| > c {
        if i < |a.done| {
          assert b.done[i] == a.done[i] && Follower(b, i) == Follower(a, i);
        }
      } else if i + 1 == |a.done| {
        assert Follower(b, i) == a.open + [w];
        assert (a.open + [w])[0] == a.open[0];
      } else {
        assert Follower(b, i) == Follower(a, i);
      }
    }
  }

  /** One word of greedy wrapping keeps `Inv`. */
  lemma FeedInv(a: Acc, ws: seq<string>, w: string, c: nat)
    requires Inv(a, ws, c) && w != []
    ensures Inv(Feed(a, w, c), ws + [w], c)
  {
    FeedCovers(a, ws, w, c);
    FeedOnlyFirstEmpty(a, ws, w, c);
    FeedFits(a, w, c);
    FeedBroken(a, ws, w, c);
  }

  /** Greedy wrapping keeps `Inv` word after word. */
  lemma {:induction false} FeedAllInv(ws: seq<string>, c: nat)
    requires IsWords(ws)
    ensures Inv(FeedAll(ws, c), ws, c)
  {
    if ws != [] {
      var pre, w := ws[..|ws| - 1], ws[|ws| - 1];
      WordsPrefix(ws, |ws| - 1);
      FeedAllInv(pre, c);
      FeedInv(FeedAll(pre, c), pre, w, c);
      assert ws == pre + [w];
    }
  }

  lemma {:induction false} WordsOfLinesGroups(gs: seq<seq<string>>)
    requires forall i :: 0 <= i < |gs| ==> IsWords(gs[i])
    ensures WordsOfLines(Lines(gs)) == Flatten(gs)
  {
    if gs != [] {
      var pre := gs[..|gs| - 1];
      WordsOfLinesGroups(pre);
      assert Lines(gs)[..|gs| - 1] == Lines(pre);
      WordsOfJoin(gs[|gs| - 1]);
    }
  }

  /** Every emitted group is made of words of the input. */
  lemma {:induction false} GroupsAreWords(ws: seq<string>, gs: seq<seq<string>>)
    requires IsWords(ws) && Flatten(gs) <= ws
    ensures forall i :: 0 <= i < |gs| ==> IsWords(gs[i])
  {
    if gs != [] {
      var pre := gs[..|gs| - 1];
      var k := |Flatten(pre)|;
      assert Flatten(pre) <= ws;
      GroupsAreWords(ws, pre);
      var g := gs[|gs| - 1];
      forall j | 0 <= j < |g| ensures g[j] != [] && NoSpace(g[j]) {
        assert g[j] == Flatten(gs)[k + j] == ws[k + j];
      }
      assert forall i :: 0 <= i < |gs| - 1 ==> gs[i] == pre[i];
    }
  }

  /** The groups of greedy wrapping are groups of words that hold `ws`, in order. */
  lemma GroupsCover(ws: seq<string>, c: nat)
    requires IsWords(ws)
    ensures Flatten(Groups(ws, c)) == ws
    ensures forall i :: 0 <= i < |Groups(ws, c)| ==> IsWords(Groups(ws, c)[i])
  {
    FeedAllInv(ws, c);
    var a := FeedAll(ws, c);
    if a.open != [] {
      FlattenSnoc(a.done, a.open);
    }
    GroupsAreWords(ws, Groups(ws, c));
  }

  /** Wrapping loses, reorders and splits no word: the words of the lines, in order,
      are the input words. */
  lemma WrappedKeepsWords(ws: seq<string>, c: nat)
    requires IsWords(ws)
    ensures WordsOfLines(Wrapped(ws, c)) == ws
  {
    GroupsCover(ws, c);
    WordsOfLinesGroups(Groups(ws, c));
  }

  /** Every line fits in `c` characters or is a single word. */
  predicate FitOrSingle(lines: seq<string>, c: nat) {
    forall i :: 0 <= i < |lines| ==> |lines[i]| <= c || NoSpace(lines[i])
  }

  /** Only the first line can be empty. */
  predicate OnlyFirstBlank(lines: seq<string>) {
    forall i :: 0 < i < |lines| ==> lines[i] != []
  }

  /** Every non-empty line but the last was closed because the first word of the next
      line did not fit after it and a space. */
  predicate Greedy(lines: seq<string>, c: nat) {
    forall i :: 0 <= i < |lines| - 1 && lines[i] != [] ==> |lines[i]| + 1 + WordLen(lines[i + 1]) > c
  }

  /** Every line fits in `c` characters or is a single word without `\s`. */
  lemma WrappedFits(ws: seq<string>, c: nat)
    requires IsWords(ws)
    ensures FitOrSingle(Wrapped(ws, c), c)
  {
    FeedAllInv(ws, c);
    GroupsCover(ws, c);
    var gs := Groups(ws, c);
    forall i | 0 <= i < |gs| ensures |Join(gs[i])| <= c || NoSpace(Join(gs[i])) {
      if |gs[i]| == 1 {
        assert Join(gs[i]) == gs[i][0];
      }
    }
  }

  /** No words give no lines; otherwise the first line is empty exactly when the first
      word alone is longer than `c`, and no later line is empty. */
  lemma WrappedEmptyLines(ws: seq<string>, c: nat)
    requires IsWords(ws)
    ensures ws == [] <==> Wrapped(ws, c) == []
    ensures ws != [] ==> (Wrapped(ws, c)[0] == [] <==> |ws[0]| > c)
    ensures OnlyFirstBlank(Wrapped(ws, c))
  {
    GroupsShape(ws, c);
    GroupsCover(ws, c);
    var gs := Groups(ws, c);
    forall i | 0 <= i < |gs| ensures (Join(gs[i]) == []) == (gs[i] == []) {
      JoinEnds(gs[i]);
    }
  }

  lemma GroupsShape(ws: seq<string>, c: nat)
    requires IsWords(ws)
    ensures (Groups(ws, c) == []) == (ws == [])
    ensures ws != [] ==> (Groups(ws, c)[0] == [] <==> |ws[0]| > c)
    ensures forall i :: 0 < i < |Groups(ws, c)| ==> Groups(ws, c)[i] != []
  {
    FeedAllInv(ws, c);
    var a := FeedAll(ws, c);
    assert Covers(a, ws) && OnlyFirstEmpty(a, ws, c);
    var gs := Groups(ws, c);
    if ws != [] {
      assert gs == a.done + [a.open];
      assert forall i :: 0 <= i < |a.done| ==> gs[i] == a.done[i];
    }
  }

  /** Every line but the last, when not empty, was broken because the first word of the
      next line did not fit after it and a space. */
  lemma WrappedGreedy(ws: seq<string>, c: nat)
    requires IsWords(ws)
    ensures Greedy(Wrapped(ws, c), c)
  {
    FeedAllInv(ws, c);
    GroupsCover(ws, c);
    var a := FeedAll(ws, c);
    var gs := Groups(ws, c);
    forall i | 0 <= i < |gs| - 1 && |Join(gs[i])| > 0
      ensures |Join(gs[i])| + 1 + WordLen(Join(gs[i + 1])) > c
    {
      var g, h := gs[i], gs[i + 1];
      assert g == a.done[i];
      assert h == Follower(a, i);
      JoinFirstWord(h);
      JoinSnoc(g, h[0]);
    }
  }

  /** What `wrapText` returns when its loop stops with `lines` and `cur`: the lines
      so far, and the trimmed current line when it is not empty. */
  function Emit(lines: seq<string>, cur: string): seq<string> {
    if Trim(cur) == [] then lines else lines + [Trim(cur)]
  }

  /** How the loop state of `wrapText` stands for greedy wrapping of the words `ws`
      read so far: the pushed lines are the emitted groups, and `cur`, with its leading
      `\s` dropped, is the open line. */
  ghost predicate InStep(lines: seq<string>, cur: string, ws: seq<string>, c: nat) {
    var a := FeedAll(ws, c);
    lines == Lines(a.done) && TrimLeft(cur) == Join(a.open)
  }

  lemma InStepEmit(lines: seq<string>, cur: string, ws: seq<string>, c: nat)
    requires IsWords(ws) && InStep(lines, cur, ws, c)
    ensures Emit(lines, cur) == Wrapped(ws, c)
  {
    var a := FeedAll(ws, c);
    FeedAllInv(ws, c);
    GroupsAreWords(ws, a.done + [a.open]);
    JoinEnds(a.open);
    assert Trim(cur) == Join(a.open);
    if a.open != [] {
      assert Lines(a.done + [a.open])[..|a.done|] == Lines(a.done);
    }
  }

  /** The pieces of `split(/\s+/)` as `wrapText` sees them. */
  predicate Pieces(words: seq<string>) {
    && (forall j :: 0 <= j < |words| ==> NoSpace(words[j]))
    && (forall j :: 0 < j < |words| - 1 ==> words[j] != [])
  }

  lemma PiecesWords(words: seq<string>, i: nat)
    requires Pieces(words) && i <= |words|
    ensures IsWords(NonEmpty(words[..i]))
  {
    var ws := NonEmpty(words[..i]);
    forall j | 0 <= j < |ws| ensures ws[j] != [] && NoSpace(ws[j]) {
      assert ws[j] in words[..i];
    }
  }

  /** The open line of greedy wrapping holds words. */
  lemma OpenWords(ws: seq<string>, c: nat)
    requires IsWords(ws)
    ensures IsWords(FeedAll(ws, c).open)
  {
    GroupsCover(ws, c);
    var a := FeedAll(ws, c);
    if a.open != [] {
      assert Groups(ws, c)[|Groups(ws, c)| - 1] == a.open;
    }
  }

  /** A turn of the loop on a word: the word joins the open line or starts a new one,
      exactly as in greedy wrapping. */
  lemma StepWord(lines0: seq<string>, cur0: string, ws: seq<string>, w: string, c: nat,
                 lines: seq<string>, cur: string)
    requires IsWords(ws) && w != [] && NoSpace(w)
    requires InStep(lines0, cur0, ws, c)
    requires if |Trim(cur0 + " " + w)| > c
             then lines == lines0 + [Trim(cur0)] && cur == w
             else lines == lines0 && cur == cur0 + " " + w
    ensures InStep(lines, cur, ws + [w], c)
  {
    var a := FeedAll(ws, c);
    assert (ws + [w])[..|ws + [w]| - 1] == ws;
    assert FeedAll(ws + [w], c) == Feed(a, w, c);
    OpenWords(ws, c);
    OpenJoin(a.open, w);
    TrimAfterOpen(cur0, a.open, w);
    assert Join([w]) == w && TrimLeft(w) == w;
    assert Trim(cur0) == Join(a.open) by {
      JoinEnds(a.open);
    }
  }

  /** Adding a word to the open line keeps it a line of words. */
  lemma OpenJoin(open: seq<string>, w: string)
    requires IsWords(open) && w != [] && NoSpace(w)
    ensures Join(open + [w]) == if open == [] then w else Join(open) + " " + w
    ensures IsWords(open + [w])
  {
    JoinSnoc(open, w);
  }

  /** When `cur` is the open line after leading `\s`, appending a space and a word and
      trimming gives the open line with that word added. */
  lemma TrimAfterOpen(cur: string, open: seq<string>, w: string)
    requires IsWords(open) && w != [] && NoSpace(w)
    requires TrimLeft(cur) == Join(open)
    ensures TrimLeft(cur + " " + w) == Join(open + [w])
    ensures Trim(cur + " " + w) == Join(open + [w])
  {
    OpenJoin(open, w);
    JoinEnds(open);
    TrimAppendWord(cur, w);
  }

  /** A turn of the loop on an empty piece changes what the loop would return by
      nothing; on the first piece it also keeps the loop state in step. */
  lemma StepEmpty(lines0: seq<string>, cur0: string, ws: seq<string>, c: nat,
                  lines: seq<string>, cur: string)
    requires IsWords(ws)
    requires InStep(lines0, cur0, ws, c)
    requires if |Trim(cur0 + " " + [])| > c
             then lines == lines0 + [Trim(cur0)] && cur == []
             else lines == lines0 && cur == cur0 + " " + []
    ensures Emit(lines, cur) == Emit(lines0, cur0)
    ensures ws == [] ==> InStep(lines, cur, ws, c)
  {
    assert cur0 + " " + [] == cur0 + " ";
    TrimTrailingSpace(cur0);
    if ws == [] {
      TrimLeftAppend(cur0, " ");
    }
  }

  /** One turn of the loop of `wrapText` on the piece `words[i]` keeps its invariant. */
  lemma StepKeeps(words: seq<string>, i: nat, lines0: seq<string>, cur0: string,
                  lines: seq<string>, cur: string, c: nat)
    requires Pieces(words) && i < |words|
    requires InStep(lines0, cur0, NonEmpty(words[..i]), c)
    requires if |Trim(cur0 + " " + words[i])| > c
             then lines == lines0 + [Trim(cur0)] && cur == words[i]
             else lines == lines0 && cur == cur0 + " " + words[i]
    ensures Emit(lines, cur) == Wrapped(NonEmpty(words[..i + 1]), c)
    ensures InStep(lines, cur, NonEmpty(words[..i + 1]), c) || i + 1 == |words|
  {
    var w := words[i];
    var pre := NonEmpty(words[..i]);
    assert words[..i + 1][..i] == words[..i];
    PiecesWords(words, i);
    PiecesWords(words, i + 1);
    if w == [] {
      assert NonEmpty(words[..i + 1]) == pre;
      StepEmpty(lines0, cur0, pre, c, lines, cur);
      InStepEmit(lines0, cur0, pre, c);
    } else {
      assert NonEmpty(words[..i + 1]) == pre + [w];
      assert NoSpace(w);
      StepWord(lines0, cur0, pre, w, c, lines, cur);
      InStepEmit(lines, cur, pre + [w], c);
    }
  }

  /** The properties of the wrapped lines of a text, gathered for `WrapText`. */
  lemma WrappedOfText(text: string, c: nat)
    ensures WordsOfLines(Wrapped(Words(text), c)) == Words(text)
    ensures FitOrSingle(Wrapped(Words(text), c), c)
    ensures Words(text) == [] <==> Wrapped(Words(text), c) == []
    ensures Words(text) != [] ==> (Wrapped(Words(text), c)[0] == [] <==> |Words(text)[0]| > c)
    ensures OnlyFirstBlank(Wrapped(Words(text), c))
    ensures Greedy(Wrapped(Words(text), c), c)
  {
    WordsAreWords(text);
    WrappedKeepsWords(Words(text), c);
    WrappedFits(Words(text), c);
    WrappedEmptyLines(Words(text), c);
    WrappedGreedy(Words(text), c);
  }

  /** `wrapText(text, c)`: splits `text` on runs of `\s` and fills each line word by
      word; a word that would make the trimmed line longer than `c` closes the line
      (pushing its trimmed text, possibly empty) and starts the next one. */
  method WrapText(text: string, c: nat) returns (lines: seq<string>)
    ensures lines == Wrapped(Words(text), c)
    ensures WordsOfLines(lines) == Words(text)
    ensures FitOrSingle(lines, c)
    ensures Words(text) == [] <==> lines == []
    ensures Words(text) != [] ==> (lines[0] == [] <==> |Words(text)[0]| > c)
    ensures OnlyFirstBlank(lines)
    ensures Greedy(lines, c)
  {
    var words := Split(text);
    SplitShape(text);
    lines := [];
    var cur := "";
    for i := 0 to |words|
      invariant Emit(lines, cur) == Wrapped(NonEmpty(words[..i]), c)
      invariant InStep(lines, cur, NonEmpty(words[..i]), c) || i == |words|
    {
      var w := words[i];
      ghost var lines0, cur0 := lines, cur;
      if |Trim(cur + " " + w)| > c {
        lines := lines + [Trim(cur)];
        cur := w;
      } else {
        cur := cur + " " + w;
      }
      StepKeeps(words, i, lines0, cur0, lines, cur, c);
    }
    if Trim(cur) != [] {
      lines := lines + [Trim(cur)];
    }
    assert words[..|words|] == words;
    WrappedOfText(text, c);
  }
}
