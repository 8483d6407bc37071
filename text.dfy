/** Character classes and string operations of ECMAScript that the script relies on:
    the `\s` class of regular expressions, `String.prototype.trim`,
    `split(/\s+/)` and joining words with single spaces. */
module Text {

  /** The ECMAScript `\s` class: the WhiteSpace code points (tab, vertical tab, form
      feed, space, no-break space, zero width no-break space and the space separators
      of Unicode) and the LineTerminator code points (line feed, carriage return, line
      separator, paragraph separator). `trim` removes exactly this set from both ends
      of a string. */
  predicate IsSpace(c: char) {
    || c == '\t' || c == '\n' || c == '\U{B}' || c == '\U{C}' || c == '\r' || c == ' '
    || c == '\U{A0}' || c == '\U{1680}' || ('\U{2000}' <= c && c <= '\U{200A}')
    || c == '\U{2028}' || c == '\U{2029}' || c == '\U{202F}' || c == '\U{205F}'
    || c == '\U{3000}' || c == '\U{FEFF}'
  }

  /** A string without any `\s` character. */
  predicate NoSpace(s: string) {
    forall i :: 0 <= i < |s| ==> !IsSpace(s[i])
  }

  /** A string made only of `\s` characters. */
  predicate AllSpace(s: string) {
    forall i :: 0 <= i < |s| ==> IsSpace(s[i])
  }

  /** Removes the leading `\s` characters: the suffix of `s` that starts at its first
      other character. */
  function TrimLeft(s: string): (r: string)
    ensures |r| <= |s|
    ensures r == [] || !IsSpace(r[0])
  {
    if s == [] || !IsSpace(s[0]) then s else TrimLeft(s[1..])
  }

  /** Removes the trailing `\s` characters: the prefix of `s` that ends at its last
      other character. */
  function TrimRight(s: string): (r: string)
    ensures |r| <= |s|
    ensures r == [] || !IsSpace(r[|r| - 1])
  {
    if s == [] || !IsSpace(s[|s| - 1]) then s else TrimRight(s[..|s| - 1])
  }

  /** `String.prototype.trim`. */
  function Trim(s: string): (r: string)
    ensures |r| <= |s|
    ensures r == [] || (!IsSpace(r[0]) && !IsSpace(r[|r| - 1]))
  {
    TrimRightPrefix(TrimLeft(s));
    TrimRight(TrimLeft(s))
  }

  /** Length of the run of non-`\s` characters at the start of `s`. */
  function WordLen(s: string): (n: nat)
    ensures n <= |s| && NoSpace(s[..n])
    ensures n == |s| || IsSpace(s[n])
  {
    if s == [] || IsSpace(s[0]) then 0
    else
      var m := WordLen(s[1..]);
      assert s[..1 + m] == [s[0]] + s[1..][..m];
      1 + m
  }

  /** `s.split(/\s+/)`: the pieces between the maximal runs of `\s`. A leading run
      gives an empty first piece, a trailing run an empty last piece, and the empty
      string gives one empty piece. */
  function Split(s: string): (r: seq<string>)
    ensures |r| >= 1
    decreases |s|
  {
    var n := WordLen(s);
    if n == |s| then [s]
    else
      assert IsSpace(s[n..][0]);
      [s[..n]] + Split(TrimLeft(s[n..]))
  }

  /** The non-empty members of `ps`, in order. */
  function NonEmpty(ps: seq<string>): (r: seq<string>)
    ensures |r| <= |ps|
    ensures forall i :: 0 <= i < |r| ==> r[i] in ps && r[i] != []
  {
    if ps == [] then []
    else NonEmpty(ps[..|ps| - 1]) + (if ps[|ps| - 1] == [] then [] else [ps[|ps| - 1]])
  }

  /** The whitespace-separated words of `s`. */
  function Words(s: string): seq<string> {
    NonEmpty(Split(s))
  }

  /** A sequence of words: each non-empty and free of `\s`. */
  predicate IsWords(ws: seq<string>) {
    forall i :: 0 <= i < |ws| ==> ws[i] != [] && NoSpace(ws[i])
  }

  /** The words of `ws` separated by one space each. */
  function Join(ws: seq<string>): string {
    if ws == [] then []
    else if |ws| == 1 then ws[0]
    else ws[0] + " " + Join(ws[1..])
  }

  /** The words of every line of `lines`, in order. */
  function WordsOfLines(lines: seq<string>): seq<string> {
    if lines == [] then []
    else WordsOfLines(lines[..|lines| - 1]) + Words(lines[|lines| - 1])
  }

  // ---------------------------------------------------------------------------
  // Lemmas

  /** Trimming the left of a concatenation. */
  lemma {:induction false} TrimLeftAppend(x: string, y: string)
    ensures TrimLeft(x + y) == if TrimLeft(x) == [] then TrimLeft(y) else TrimLeft(x) + y
  {
    if x == [] {
      assert x + y == y;
    } else if IsSpace(x[0]) {
      assert (x + y)[1..] == x[1..] + y;
      TrimLeftAppend(x[1..], y);
    }
  }

  /** A leading space disappears under `TrimLeft` when what follows it does not start
      with `\s`. */
  lemma TrimLeftSpace(w: string)
    requires w == [] || !IsSpace(w[0])
    ensures TrimLeft(" " + w) == w
  {
    assert (" " + w)[1..] == w;
    assert IsSpace((" " + w)[0]);
  }

  /** Trimming a string to which a space and a word are appended: the word follows the
      trimmed string after one space, or stands alone when the string trims to
      nothing. */
  lemma TrimAppendWord(cur: string, w: string)
    requires w != [] && !IsSpace(w[0]) && !IsSpace(w[|w| - 1])
    requires TrimLeft(cur) == [] || !IsSpace(TrimLeft(cur)[|TrimLeft(cur)| - 1])
    ensures TrimLeft(cur + " " + w) == if TrimLeft(cur) == [] then w else TrimLeft(cur) + " " + w
    ensures Trim(cur + " " + w) == TrimLeft(cur + " " + w)
  {
    var line := TrimLeft(cur);
    TrimLeftAppend(cur, " " + w);
    assert cur + " " + w == cur + (" " + w);
    TrimLeftSpace(w);
    if line != [] {
      assert line + " " + w == line + (" " + w);
    }
    var x := TrimLeft(cur + " " + w);
    assert x[|x| - 1] == w[|w| - 1];
    assert TrimRight(x) == x;
  }

  /** A trailing space disappears under `trim`. */
  lemma TrimTrailingSpace(x: string)
    ensures Trim(x + " ") == Trim(x)
  {
    TrimLeftAppend(x, " ");
    if TrimLeft(x) != [] {
      var t := TrimLeft(x);
      assert (t + " ")[..|t + " "| - 1] == t;
    }
  }

  /** `trim` keeps the trimmed prefix of `x` in front of whatever is appended after a
      space. */
  lemma {:induction false} TrimRightAppend(x: string, y: string)
    ensures TrimRight(x + y) == if TrimRight(y) == [] then TrimRight(x) else x + TrimRight(y)
    decreases |y|
  {
    if y == [] {
      assert x + y == x;
    } else if IsSpace(y[|y| - 1]) {
      assert (x + y)[..|x + y| - 1] == x + y[..|y| - 1];
      TrimRightAppend(x, y[..|y| - 1]);
    }
  }

  /** `TrimRight` removes characters from the end only. */
  lemma {:induction false} TrimRightPrefix(s: string)
    ensures TrimRight(s) <= s
    ensures AllSpace(s[|TrimRight(s)|..])
  {
    if s != [] && IsSpace(s[|s| - 1]) {
      var t := s[..|s| - 1];
      TrimRightPrefix(t);
      assert s[|TrimRight(s)|..] == t[|TrimRight(t)|..] + [s[|s| - 1]];
    }
  }

  /** `TrimLeft` removes characters from the start only, and only `\s`. */
  lemma {:induction false} TrimLeftSuffix(s: string)
    ensures TrimLeft(s) == s[|s| - |TrimLeft(s)|..]
    ensures AllSpace(s[..|s| - |TrimLeft(s)|])
  {
    if s != [] && IsSpace(s[0]) {
      var t := s[1..];
      TrimLeftSuffix(t);
      assert s[..|s| - |TrimLeft(s)|] == [s[0]] + t[..|t| - |TrimLeft(t)|];
    }
  }

  /** `trim` removes `\s` from the two ends of a string and nothing else: its result
      is a slice of the input with only `\s` before and after it. */
  lemma TrimIsSlice(s: string)
    ensures exists i, j :: 0 <= i <= j <= |s| && Trim(s) == s[i..j] && AllSpace(s[..i]) && AllSpace(s[j..])
  {
    var l := TrimLeft(s);
    var i := |s| - |l|;
    TrimLeftSuffix(s);
    TrimRightPrefix(l);
    var j := i + |Trim(s)|;
    assert Trim(s) == s[i..j];
    assert s[j..] == l[|TrimRight(l)|..];
  }

  /** Appending a space and more text after a string keeps its trimmed form in front
      of the trimmed result. */
  lemma TrimKeepsPrefix(t: string, x: string)
    ensures Trim(t) <= Trim(t + " " + x)
  {
    var l := TrimLeft(t);
    assert t + " " + x == t + (" " + x);
    TrimLeftAppend(t, " " + x);
    if l != [] {
      TrimRightAppend(l, " " + x);
      TrimRightPrefix(l);
    }
  }

  /** The word length of a word followed by a space or by nothing. */
  lemma {:induction false} WordLenOfWord(w: string, t: string)
    requires NoSpace(w)
    requires t == [] || IsSpace(t[0])
    ensures WordLen(w + t) == |w|
  {
    if w != [] {
      assert (w + t)[1..] == w[1..] + t;
      WordLenOfWord(w[1..], t);
    } else {
      assert w + t == t;
    }
  }

  /** The first character of a join is the first character of its first word. */
  lemma JoinStart(ws: seq<string>)
    requires ws != [] && ws[0] != []
    ensures Join(ws) != [] && Join(ws)[0] == ws[0][0]
  {
  }

  /** Joining words gives a string with no leading or trailing space, which is empty
      only when there are no words. */
  lemma {:induction false} JoinEnds(ws: seq<string>)
    requires IsWords(ws)
    ensures (Join(ws) == []) == (ws == [])
    ensures Join(ws) != [] ==> !IsSpace(Join(ws)[0]) && !IsSpace(Join(ws)[|Join(ws)| - 1])
  {
    if |ws| > 1 {
      JoinEnds(ws[1..]);
    }
  }

  /** The first word of a join is the first of the joined words. */
  lemma JoinFirstWord(ws: seq<string>)
    requires IsWords(ws) && ws != []
    ensures WordLen(Join(ws)) == |ws[0]|
  {
    if |ws| == 1 {
      WordLenOfWord(ws[0], []);
      assert ws[0] + [] == ws[0];
    } else {
      WordLenOfWord(ws[0], " " + Join(ws[1..]));
      assert Join(ws) == ws[0] + (" " + Join(ws[1..]));
    }
  }

  /** Appending a word to a join. */
  lemma {:induction false} JoinSnoc(ws: seq<string>, w: string)
    ensures Join(ws + [w]) == if ws == [] then w else Join(ws) + " " + w
  {
    if |ws| == 1 {
      assert (ws + [w])[1..] == [w];
    } else if |ws| > 1 {
      assert (ws + [w])[1..] == ws[1..] + [w];
      JoinSnoc(ws[1..], w);
    }
  }

  /** Splitting a join of words gives the words back. */
  lemma {:induction false} SplitJoin(ws: seq<string>)
    requires IsWords(ws) && ws != []
    ensures Split(Join(ws)) == ws
  {
    if |ws| == 1 {
      WordLenOfWord(ws[0], []);
      assert ws[0] + [] == ws[0];
    } else {
      var rest := Join(ws[1..]);
      JoinStart(ws[1..]);
      WordLenOfWord(ws[0], " " + rest);
      assert Join(ws) == ws[0] + (" " + rest);
      var n := |ws[0]|;
      assert Join(ws)[..n] == ws[0];
      assert Join(ws)[n..] == " " + rest;
      TrimLeftSpace(rest);
      SplitJoin(ws[1..]);
    }
  }

  /** `NonEmpty` keeps a sequence of words as it is. */
  lemma {:induction false} NonEmptyOfWords(ws: seq<string>)
    requires IsWords(ws)
    ensures NonEmpty(ws) == ws
  {
    if ws != [] {
      NonEmptyOfWords(ws[..|ws| - 1]);
    }
  }

  /** The words of a join of words are those words. */
  lemma WordsOfJoin(ws: seq<string>)
    requires IsWords(ws)
    ensures Words(Join(ws)) == ws
  {
    if ws == [] {
    } else {
      SplitJoin(ws);
      NonEmptyOfWords(ws);
    }
  }

  /** The pieces of `split(/\s+/)` hold no `\s`, and only the first and the last piece
      can be empty: the first when `s` starts with `\s` or is empty, the last when it
      ends with `\s`. */
  lemma {:induction false} SplitShape(s: string)
    ensures forall j :: 0 <= j < |Split(s)| ==> NoSpace(Split(s)[j])
    ensures forall j :: 0 < j < |Split(s)| - 1 ==> Split(s)[j] != []
    ensures (Split(s)[0] == []) == (s == [] || IsSpace(s[0]))
    decreases |s|
  {
    var n := WordLen(s);
    if n < |s| {
      var t := TrimLeft(s[n..]);
      assert IsSpace(s[n..][0]);
      SplitShape(t);
      assert Split(s) == [s[..n]] + Split(t);
    }
  }

  /** The pieces `ps` put back together with `seps[i]` between `ps[i]` and `ps[i + 1]`. */
  function Glue(ps: seq<string>, seps: seq<string>): string
    requires |ps| >= 1 && |seps| == |ps| - 1
    decreases |ps|
  {
    if |ps| == 1 then ps[0] else ps[0] + seps[0] + Glue(ps[1..], seps[1..])
  }

  /** Non-empty runs of `\s`. */
  predicate SpaceRuns(seps: seq<string>) {
    forall i :: 0 <= i < |seps| ==> seps[i] != [] && AllSpace(seps[i])
  }

  lemma GlueCons(p: string, sep: string, ps: seq<string>, seps: seq<string>)
    requires |ps| >= 1 && |seps| == |ps| - 1
    ensures Glue([p] + ps, [sep] + seps) == p + sep + Glue(ps, seps)
  {
    assert ([p] + ps)[1..] == ps && ([sep] + seps)[1..] == seps;
  }

  /** `split(/\s+/)` cuts at runs of `\s`: its pieces glued back together with
      non-empty runs of `\s` give the string back. As no piece holds `\s` and only the
      first and last can be empty (`SplitShape`), the runs are the maximal ones and the
      pieces are determined. */
  lemma {:induction false} SplitRebuilds(s: string)
    ensures exists seps :: |seps| == |Split(s)| - 1 && SpaceRuns(seps) && Glue(Split(s), seps) == s
    decreases |s|
  {
    var n := WordLen(s);
    if n == |s| {
      var none: seq<string> := [];
      assert |none| == |Split(s)| - 1 && SpaceRuns(none) && Glue(Split(s), none) == s;
    } else {
      var t := TrimLeft(s[n..]);
      var sep := SplitCut(s);
      SplitRebuilds(t);
      var more :| |more| == |Split(t)| - 1 && SpaceRuns(more) && Glue(Split(t), more) == t;
      assert Split(s) == [s[..n]] + Split(t);
      GlueCons(s[..n], sep, Split(t), more);
      SpaceRunsCons(sep, more);
      assert Glue(Split(s), [sep] + more) == s;
    }
  }

  /** Where `split(/\s+/)` cuts a string with `\s` after its first piece: the first
      piece, a non-empty run of `\s`, and the rest without leading `\s`. */
  lemma SplitCut(s: string) returns (sep: string)
    requires WordLen(s) < |s|
    ensures sep != [] && AllSpace(sep)
    ensures s == s[..WordLen(s)] + sep + TrimLeft(s[WordLen(s)..])
  {
    var n := WordLen(s);
    var rest := s[n..];
    var t := TrimLeft(rest);
    assert |t| < |rest| by {
      assert IsSpace(rest[0]);
      assert t == TrimLeft(rest[1..]);
    }
    TrimLeftSuffix(rest);
    sep := rest[..|rest| - |t|];
    assert rest == sep + t;
    assert s == s[..n] + rest;
  }

  lemma SpaceRunsCons(sep: string, seps: seq<string>)
    requires sep != [] && AllSpace(sep) && SpaceRuns(seps)
    ensures SpaceRuns([sep] + seps)
  {
    forall i | 0 < i < |seps| + 1 ensures ([sep] + seps)[i] == seps[i - 1] {
    }
  }

  /** A prefix of a sequence of words is a sequence of words. */
  lemma WordsPrefix(ws: seq<string>, n: nat)
    requires IsWords(ws) && n <= |ws|
    ensures IsWords(ws[..n])
  {
  }

  /** The words of a string are non-empty and free of `\s`. */
  lemma WordsAreWords(s: string)
    ensures IsWords(Words(s))
  {
    SplitShape(s);
  }
}
