/** `sanitize_filename`: the four-stage transform that turns a video title
    into the title shown in the download report. (The downloaded file itself
    is named by `yt_dlp`'s own output template, not by this function.) The
    stages run in this order:
      1. delete the nine characters  < > : " / \ | ? *
      2. replace every line feed, carriage return and tab by a space
      3. keep at most the first 200 characters
      4. strip whitespace from both ends (Python's `str.strip()`). */
module Sanitizer {
  import opened Optional
  import opened PyStr

  /** The longest name, in code points, that stage 3 lets through. */
  const MaxLength := 200

  /** The title shown when the metadata carries none. */
  const DefaultTitle := "Unknown"

  /** The nine characters stage 1 deletes. */
  predicate IsForbidden(c: char)
  {
    c == '<' || c == '>' || c == ':' || c == '"' || c == '/'
    || c == '\\' || c == '|' || c == '?' || c == '*'
  }

  /** The three characters stage 2 turns into a space. */
  predicate IsBreak(c: char)
  {
    c == '\n' || c == '\r' || c == '\t'
  }

  /** What a character that survives stage 1 looks like after stage 2. */
  function Blanked(c: char): char
  {
    if IsBreak(c) then ' ' else c
  }

  /** A string the sanitizer may return. */
  predicate IsSanitized(s: string)
  {
    && (forall k :: 0 <= k < |s| ==> !IsForbidden(s[k]) && !IsBreak(s[k]))
    && |s| <= MaxLength
    && NoEdgeSpace(s)
  }

  // ------------------------------------------------------------- the stages

  /** Stage 1: delete every forbidden character, keeping the others. */
  function RemoveForbidden(s: string): (r: string)
    ensures |r| <= |s|
    ensures forall k :: 0 <= k < |r| ==> !IsForbidden(r[k])
  {
    if |s| == 0 then ""
    else
      var rest := RemoveForbidden(s[..|s| - 1]);
      if IsForbidden(s[|s| - 1]) then rest else rest + [s[|s| - 1]]
  }

  /** Stage 2: every line feed, carriage return and tab becomes a space;
      every other character stays where it is. */
  function ReplaceBreaks(s: string): (r: string)
    ensures |r| == |s|
    ensures forall k :: 0 <= k < |s| && IsBreak(s[k]) ==> r[k] == ' '
    ensures forall k :: 0 <= k < |s| && !IsBreak(s[k]) ==> r[k] == s[k]
  {
    if |s| == 0 then ""
    else ReplaceBreaks(s[..|s| - 1]) + [Blanked(s[|s| - 1])]
  }

  /** Stage 3: the first `MaxLength` characters. */
  function Truncate(s: string): (r: string)
    ensures r <= s
    ensures |r| <= MaxLength
    ensures |s| <= MaxLength ==> r == s
    ensures |s| > MaxLength ==> |r| == MaxLength
  {
    if |s| > MaxLength then s[..MaxLength] else s
  }

  /** Stages 1 to 3: the 200-character prefix of the input with forbidden
      characters deleted and line breaks and tabs blanked. */
  function Prepared(filename: string): (t: string)
    ensures forall k :: 0 <= k < |t| ==> !IsForbidden(t[k]) && !IsBreak(t[k])
    ensures |t| <= MaxLength
    ensures t <= ReplaceBreaks(RemoveForbidden(filename))
    ensures |t| == if |RemoveForbidden(filename)| > MaxLength then MaxLength else |RemoveForbidden(filename)|
  {
    var c := RemoveForbidden(filename);
    var b := ReplaceBreaks(c);
    assert forall k :: 0 <= k < |b| ==> !IsForbidden(b[k]) && !IsBreak(b[k]);
    var t := Truncate(b);
    assert forall k :: 0 <= k < |t| ==> t[k] == b[k];
    t
  }

  /** `sanitize_filename`: the four stages in order. The result carries no
      forbidden character and no line break or tab, is at most 200
      characters long, and has no whitespace at either end. */
  function Sanitize(filename: string): (r: string)
    ensures forall k :: 0 <= k < |r| ==> !IsForbidden(r[k])
    ensures forall k :: 0 <= k < |r| ==> !IsBreak(r[k])
    ensures |r| <= MaxLength
    ensures NoEdgeSpace(r)
  {
    var t := Prepared(filename);
    StripNoEdgeSpace(t);
    StripKeepsClean(t);
    Strip(t)
  }

  /** Stripping a string with no forbidden character and no break leaves
      one with neither, and never lengthens it. */
  lemma StripKeepsClean(t: string)
    requires forall k :: 0 <= k < |t| ==> !IsForbidden(t[k]) && !IsBreak(t[k])
    ensures |Strip(t)| <= |t|
    ensures forall k :: 0 <= k < |Strip(t)| ==> !IsForbidden(Strip(t)[k]) && !IsBreak(Strip(t)[k])
  {
    var r := Strip(t);
    var i, j :| StripWindow(t, i, j) && r == t[i..j];
    assert forall k :: 0 <= k < |r| ==> r[k] == t[i + k];
  }

  /** The title line of the download: the metadata's title, or "Unknown"
      when it has none, sanitized. */
  function DisplayTitle(title: Option<string>): (r: string)
    ensures IsSanitized(r)
    ensures title == None ==> r == DefaultTitle
    ensures title.Some? ==> r == Sanitize(title.value)
  {
    DefaultTitleSanitized();
    SanitizeFixedPoint(DefaultTitle);
    Sanitize(title.ValueOr(DefaultTitle))
  }

  // ------------------------------------------------------------ idempotence

  /** Stage 1 leaves a string without forbidden characters alone. */
  lemma {:induction false} RemoveForbiddenClean(s: string)
    requires forall k :: 0 <= k < |s| ==> !IsForbidden(s[k])
    ensures RemoveForbidden(s) == s
  {
    if |s| > 0 {
      RemoveForbiddenClean(s[..|s| - 1]);
      assert s[..|s| - 1] + [s[|s| - 1]] == s;
    }
  }

  /** Stage 1 works character by character: it distributes over
      concatenation. */
  lemma {:induction false} RemoveForbiddenAppend(a: string, b: string)
    ensures RemoveForbidden(a + b) == RemoveForbidden(a) + RemoveForbidden(b)
    decreases |b|
  {
    if |b| > 0 {
      var b' := b[..|b| - 1];
      assert (a + b)[..|a + b| - 1] == a + b';
      RemoveForbiddenAppend(a, b');
    } else {
      assert a + b == a;
    }
  }

  /** The strings the sanitizer returns unchanged are exactly the sanitized
      ones. */
  lemma SanitizeFixedPoint(s: string)
    ensures Sanitize(s) == s <==> IsSanitized(s)
  {
    if IsSanitized(s) {
      PreparedSanitized(s);
      StripTrimmed(s);
    }
  }

  /** Stages 1 to 3 leave a sanitized string alone. */
  lemma PreparedSanitized(s: string)
    requires IsSanitized(s)
    ensures Prepared(s) == s
  {
    RemoveForbiddenClean(s);
    var b := ReplaceBreaks(s);
    assert forall k :: 0 <= k < |s| ==> b[k] == s[k];
    assert b == s;
  }

  /** Sanitizing a sanitized name changes nothing. */
  lemma SanitizeIdempotent(s: string)
    ensures Sanitize(Sanitize(s)) == Sanitize(s)
  {
    SanitizeFixedPoint(Sanitize(s));
  }

  // --------------------------------------------------------- what survives

  /** `idx` holds positions below `n`, in increasing order. */
  ghost predicate Increasing(idx: seq<int>, n: int)
  {
    && (forall k :: 0 <= k < |idx| ==> 0 <= idx[k] < n)
    && (forall k, l :: 0 <= k < l < |idx| ==> idx[k] < idx[l])
  }

  /** `r` consists of the characters of `s` at the positions `idx`, in
      order, and those are exactly the positions of the characters that are
      not forbidden: what stage 1 must return. */
  ghost predicate Filters(r: string, s: string, idx: seq<int>)
  {
    && |idx| == |r|
    && Increasing(idx, |s|)
    && (forall k :: 0 <= k < |r| ==> r[k] == s[idx[k]])
    && (forall p :: 0 <= p < |s| ==> (p in idx <==> !IsForbidden(s[p])))
  }

  /** `r` is drawn from `s` in order: `r[k]` stands for the character of `s`
      at position `idx[k]`, which is not forbidden, as that same character
      or, for a line break or tab, as a space; and from the first position
      drawn to the last, every character left out is a forbidden one. */
  ghost predicate DrawnFrom(r: string, s: string, idx: seq<int>)
  {
    && |idx| == |r|
    && Increasing(idx, |s|)
    && StandsFor(r, s, idx)
    && OnlyForbiddenMissing(s, idx)
  }

  /** Each `r[k]` is the character of `s` at `idx[k]`, which is not
      forbidden, with a line break or tab shown as a space. */
  ghost predicate StandsFor(r: string, s: string, idx: seq<int>)
    requires |idx| == |r| && Increasing(idx, |s|)
  {
    forall k :: 0 <= k < |r| ==> !IsForbidden(s[idx[k]]) && r[k] == Blanked(s[idx[k]])
  }

  /** From the first position in `idx` to the last, the positions left out
      hold forbidden characters and the others are in `idx`. */
  ghost predicate OnlyForbiddenMissing(s: string, idx: seq<int>)
    requires Increasing(idx, |s|)
  {
    |idx| > 0 ==>
      forall p :: 0 <= p < |s| && idx[0] <= p <= idx[|idx| - 1] ==>
        (p in idx <==> !IsForbidden(s[p]))
  }

  /** A forbidden character appended to the input leaves stage 1's result
      and positions as they were. */
  lemma FiltersDrop(r: string, s: string, idx: seq<int>, c: char)
    requires Filters(r, s, idx) && IsForbidden(c)
    ensures Filters(r, s + [c], idx)
  {
    var s' := s + [c];
    forall p | 0 <= p < |s'|
      ensures p in idx <==> !IsForbidden(s'[p])
    {
      if p < |s| {
        assert s'[p] == s[p];
      }
    }
  }

  /** Any other character appended to the input is appended to stage 1's
      result, at the last position. */
  lemma FiltersKeep(r: string, s: string, idx: seq<int>, c: char)
    requires Filters(r, s, idx) && !IsForbidden(c)
    ensures Filters(r + [c], s + [c], idx + [|s|])
  {
    var s', idx' := s + [c], idx + [|s|];
    forall p | 0 <= p < |s'|
      ensures p in idx' <==> !IsForbidden(s'[p])
    {
      if p < |s| {
        assert s'[p] == s[p];
        assert p in idx' <==> p in idx;
      }
    }
  }

  /** Stage 1 keeps every character that is not forbidden, in order, and
      nothing else. */
  lemma {:induction false} RemoveForbiddenFilters(s: string)
    ensures exists idx :: Filters(RemoveForbidden(s), s, idx)
  {
    var r := RemoveForbidden(s);
    if |s| == 0 {
      assert Filters(r, s, []);
    } else {
      var s', c := s[..|s| - 1], s[|s| - 1];
      assert s == s' + [c];
      var r' := RemoveForbidden(s');
      RemoveForbiddenFilters(s');
      var idx' :| Filters(r', s', idx');
      if IsForbidden(c) {
        FiltersDrop(r', s', idx', c);
      } else {
        FiltersKeep(r', s', idx', c);
      }
    }
  }

  /** A position that stage 1 keeps and that lies between the positions
      `idx[i]` and `idx[j - 1]` is one of `idx[i..j]`. */
  lemma KeptInWindow(c: string, s: string, idx: seq<int>, i: int, j: int, p: int)
    requires Filters(c, s, idx) && 0 <= i < j <= |idx|
    requires 0 <= p < |s| && idx[i] <= p <= idx[j - 1] && !IsForbidden(s[p])
    ensures p in idx[i..j]
  {
    var m :| 0 <= m < |idx| && idx[m] == p;
    assert i <= m < j;
    assert idx[i..j][m - i] == p;
  }

  /** Stages 2 to 4 cut a window out of stage 1's result and blank its
      line breaks and tabs; the window is drawn from the input in order. */
  lemma WindowDrawnFrom(c: string, s: string, idx: seq<int>, i: int, j: int)
    requires Filters(c, s, idx) && 0 <= i <= j <= |c|
    ensures DrawnFrom(ReplaceBreaks(c)[i..j], s, idx[i..j])
  {
    WindowIncreasing(idx, |s|, i, j);
    WindowCharacters(c, s, idx, i, j);
    WindowMembers(c, s, idx, i, j);
  }

  /** A window of increasing positions is increasing. */
  lemma WindowIncreasing(idx: seq<int>, n: int, i: int, j: int)
    requires Increasing(idx, n) && 0 <= i <= j <= |idx|
    ensures Increasing(idx[i..j], n)
  {
    assert forall k :: 0 <= k < j - i ==> idx[i..j][k] == idx[i + k];
  }

  /** Each character of the window stands for the input character at its
      position, blanked. */
  lemma WindowCharacters(c: string, s: string, idx: seq<int>, i: int, j: int)
    requires Filters(c, s, idx) && 0 <= i <= j <= |c|
    requires Increasing(idx[i..j], |s|)
    ensures StandsFor(ReplaceBreaks(c)[i..j], s, idx[i..j])
  {
    var b := ReplaceBreaks(c);
    forall k | 0 <= k < j - i
      ensures !IsForbidden(s[idx[i..j][k]]) && b[i..j][k] == Blanked(s[idx[i..j][k]])
    {
      assert b[i..j][k] == b[i + k];
      assert idx[i..j][k] == idx[i + k];
      assert c[i + k] == s[idx[i + k]];
    }
  }

  /** Between `idx[i]` and `idx[j - 1]`, the positions in `idx[i..j]` are
      exactly those of characters that are not forbidden. */
  lemma WindowMembers(c: string, s: string, idx: seq<int>, i: int, j: int)
    requires Filters(c, s, idx) && 0 <= i <= j <= |c|
    requires Increasing(idx[i..j], |s|)
    ensures OnlyForbiddenMissing(s, idx[i..j])
  {
    if i == j {
      return;
    }
    assert idx[i..j][0] == idx[i] && idx[i..j][j - i - 1] == idx[j - 1];
    forall p | 0 <= p < |s| && idx[i] <= p <= idx[j - 1]
      ensures p in idx[i..j] <==> !IsForbidden(s[p])
    {
      if !IsForbidden(s[p]) {
        KeptInWindow(c, s, idx, i, j, p);
      }
      if p in idx[i..j] {
        var m :| 0 <= m < j - i && idx[i..j][m] == p;
        assert idx[i + m] == p;
      }
    }
  }

  /** Stages 3 and 4 only cut a window out of stage 2's result. */
  lemma SanitizeIsWindow(s: string) returns (i: int, j: int)
    ensures 0 <= i <= j <= |RemoveForbidden(s)| && j <= MaxLength
    ensures StripWindow(Truncate(ReplaceBreaks(RemoveForbidden(s))), i, j)
    ensures Sanitize(s) == ReplaceBreaks(RemoveForbidden(s))[i..j]
  {
    var b := ReplaceBreaks(RemoveForbidden(s));
    var t := Prepared(s);
    assert t == b[..|t|];
    var r := Strip(t);
    i, j :| StripWindow(t, i, j) && r == t[i..j];
    SliceOfPrefix(b, |t|, i, j);
  }

  lemma SliceOfPrefix(b: string, n: int, i: int, j: int)
    requires 0 <= i <= j <= n <= |b|
    ensures b[..n][i..j] == b[i..j]
  {
  }

  /** Nothing but the four stages happens: the characters of the sanitized
      name come from the title in their original order, none of them
      forbidden, each unchanged except that a line break or tab shows as a
      space, and inside the stretch of the title they come from only
      forbidden characters are missing. */
  lemma SanitizeDrawsInOrder(s: string)
    ensures exists idx :: DrawnFrom(Sanitize(s), s, idx)
  {
    var i, j := SanitizeSlice(s);
    FilteredWindowDrawn(s, i, j);
  }

  /** The window `SanitizeIsWindow` finds, with only the facts
      `SanitizeDrawsInOrder` needs. */
  lemma SanitizeSlice(s: string) returns (i: int, j: int)
    ensures 0 <= i <= j <= |RemoveForbidden(s)|
    ensures Sanitize(s) == ReplaceBreaks(RemoveForbidden(s))[i..j]
  {
    i, j := SanitizeIsWindow(s);
  }

  /** Any window of stage 2's result is drawn in order from the title. */
  lemma FilteredWindowDrawn(s: string, i: int, j: int)
    requires 0 <= i <= j <= |RemoveForbidden(s)|
    ensures exists w :: DrawnFrom(ReplaceBreaks(RemoveForbidden(s))[i..j], s, w)
  {
    var c := RemoveForbidden(s);
    RemoveForbiddenFilters(s);
    var idx :| Filters(c, s, idx);
    WindowDrawnFrom(c, s, idx, i, j);
  }

  /** "Unknown" passes through the sanitizer unchanged. */
  lemma DefaultTitleSanitized()
    ensures IsSanitized(DefaultTitle)
  {
  }

  /** Only the characters that survive stage 1 matter to the sanitizer: when
      they already form a sanitized name, that name is the result. */
  lemma SanitizeAfterRemoval(s: string)
    requires IsSanitized(RemoveForbidden(s))
    ensures Sanitize(s) == RemoveForbidden(s)
  {
    var c := RemoveForbidden(s);
    assert ReplaceBreaks(c) == c;
    StripTrimmed(c);
  }

  /** A short title without forbidden characters loses only its edge
      whitespace: when blanking leaves none at either end, the blanked title
      is the result. */
  lemma SanitizeAfterBlanking(s: string)
    requires forall k :: 0 <= k < |s| ==> !IsForbidden(s[k])
    requires |s| <= MaxLength && NoEdgeSpace(ReplaceBreaks(s))
    ensures Sanitize(s) == ReplaceBreaks(s)
  {
    RemoveForbiddenClean(s);
    StripTrimmed(ReplaceBreaks(s));
  }

  /** Stage 1 on one more character: it is kept unless forbidden. */
  lemma RemoveForbiddenSnoc(a: string, c: char)
    ensures RemoveForbidden(a + [c]) == RemoveForbidden(a) + (if IsForbidden(c) then [] else [c])
  {
    assert (a + [c])[..|a|] == a;
  }

  /** Stage 1 on a title with a colon and a slash: both are deleted. */
  lemma ExampleRemoval()
    ensures RemoveForbidden("My: Video/Title") == "My VideoTitle"
  {
    var my, video, title := "My", " Video", "Title";
    RemoveForbiddenClean(my);
    RemoveForbiddenClean(video);
    RemoveForbiddenClean(title);
    var x1 := my + [':'];
    RemoveForbiddenSnoc(my, ':');
    var x2 := x1 + video;
    RemoveForbiddenAppend(x1, video);
    var x3 := x2 + ['/'];
    RemoveForbiddenSnoc(x2, '/');
    var x4 := x3 + title;
    RemoveForbiddenAppend(x3, title);
    assert x4 == "My: Video/Title";
    assert my + video + title == "My VideoTitle";
  }

  /** A colon and a slash in a title are deleted and nothing takes their
      place, so the words on either side of the slash run together. */
  lemma SanitizeExample()
    ensures Sanitize("My: Video/Title") == "My VideoTitle"
  {
    ExampleRemoval();
    assert IsSanitized("My VideoTitle");
    SanitizeAfterRemoval("My: Video/Title");
  }

  /** Each line break or tab becomes its own space: a carriage return and
      line feed in a row leave two spaces, not one. */
  lemma BreaksNotCollapsed()
    ensures Sanitize("a\r\nb") == "a  b"
  {
    var s := "a\r\nb";
    var b := ReplaceBreaks(s);
    assert IsBreak(s[1]) && IsBreak(s[2]) && !IsBreak(s[0]) && !IsBreak(s[3]);
    assert b == "a  b";
    SanitizeAfterBlanking(s);
  }
}
