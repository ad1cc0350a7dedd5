/**
 * The comments of scripts/markdown.ts against those of section 6.6 of CommonMark 0.31.2, in which
 * `<!-->` and `<!--->` are complete: exactly when both readings hide the same characters.
 */
module CommentReadings {
  import opened HtmlComments

  predicate Abrupt(s: string, i: nat) {
    At(s, "<!-->", i) || At(s, "<!--->", i)
  }

  /** Behind a comment as the standard reads it; an unclosed one goes on to the end. */
  function StandardEnd(s: string, i: nat): (end: nat)
    requires At(s, "<!--", i)
    ensures i + 4 < end <= |s| || end == |s|
  {
    if At(s, "<!-->", i) then i + 5 else if At(s, "<!--->", i) then i + 6 else CommentEnd(s, i)
  }

  /** Is character `k` shown by the standard, when text starts at `i`? */
  predicate StandardShown(s: string, i: nat, k: nat)
    requires i <= k < |s|
    decreases |s| - i
  {
    if At(s, "<!--", i) then k >= StandardEnd(s, i) && StandardShown(s, StandardEnd(s, i), k)
    else k == i || StandardShown(s, i + 1, k)
  }

  /** From `i` to `end` there are standard comments and nothing else. */
  predicate OnlyComments(s: string, i: nat, end: nat)
    requires i <= |s|
    decreases |s| - i
  {
    i == end || (At(s, "<!--", i) && OnlyComments(s, StandardEnd(s, i), end))
  }

  /** Behind every abruptly closed comment there are further comments, and nothing else, up to where
      the scan finds its close. */
  predicate Tidy(s: string, i: nat)
    requires i <= |s|
    decreases |s| - i
  {
    if i == |s| then true
    else if !At(s, "<!--", i) then Tidy(s, i + 1)
    else OnlyComments(s, StandardEnd(s, i), CommentEnd(s, i)) && Tidy(s, CommentEnd(s, i))
  }

  ghost predicate SameFrom(s: string, i: nat) {
    forall k | i <= k < |s| :: ShownFrom(s, i, k) <==> StandardShown(s, i, k)
  }

  /** The scan never closes a comment before the standard has closed those within. */
  lemma WithinComment(s: string, i: nat, j: nat)
    requires At(s, "<!--", i) && At(s, "<!--", j) && i + 4 < j < CommentEnd(s, i)
    ensures StandardEnd(s, j) <= CommentEnd(s, i)
  {
    var close := IndexOf(s, "-->", i + 4);
    if close.Some? {
      if close.value >= j + 4 {
        ClosesAlike(s, i + 4, j + 4);
      } else {
        ClosedAbruptly(s, j, close.value);
      }
    }
  }

  /** A close within an opening belongs to an abrupt comment. */
  lemma ClosedAbruptly(s: string, j: nat, c: nat)
    requires At(s, "<!--", j) && At(s, "-->", c) && j < c + 3 && c < j + 4
    ensures (c == j + 2 && At(s, "<!-->", j)) || (c == j + 3 && At(s, "<!--->", j))
  {
    assert s[j..j + 4][0] == '<' && s[j..j + 4][1] == '!' && s[j..j + 4][2] == '-' && s[j..j + 4][3] == '-';
    assert s[c..c + 3][0] == '-' && s[c..c + 3][1] == '-' && s[c..c + 3][2] == '>';
    if c == j + 2 { assert s[j..j + 5] == "<!-->"; } else { assert c == j + 3 && s[j..j + 6] == "<!--->"; }
  }

  lemma ClosesAlike(s: string, from: nat, later: nat)
    requires from <= later <= |s|
    requires IndexOf(s, "-->", from).Some? && IndexOf(s, "-->", from).value >= later
    ensures IndexOf(s, "-->", later) == IndexOf(s, "-->", from)
  {
    var found := IndexOf(s, "-->", later);
    assert At(s, "-->", IndexOf(s, "-->", from).value);
  }

  /** Comments and nothing else hide everything. */
  lemma {:induction false} CommentsHide(s: string, i: nat, end: nat, k: nat)
    requires i <= k < |s| && i <= end <= |s| && OnlyComments(s, i, end)
    ensures if k < end then !StandardShown(s, i, k) else StandardShown(s, i, k) == StandardShown(s, end, k)
    decreases |s| - i
  {
    if i < end {
      var next := StandardEnd(s, i);
      OnlyForward(s, next, end);
      if k >= next { CommentsHide(s, next, end, k); }
    }
  }

  lemma {:induction false} OnlyForward(s: string, i: nat, end: nat)
    requires i <= |s| && OnlyComments(s, i, end)
    ensures i <= end
    decreases |s| - i
  {
    if i != end { OnlyForward(s, StandardEnd(s, i), end); }
  }

  /** Inside a scanned comment the standard hides everything only by further comments. */
  lemma {:induction false} HiddenIsComments(s: string, start: nat, i: nat)
    requires At(s, "<!--", start) && start + 4 < i <= CommentEnd(s, start)
    requires forall k | i <= k < CommentEnd(s, start) :: !StandardShown(s, i, k)
    ensures OnlyComments(s, i, CommentEnd(s, start))
    decreases |s| - i
  {
    var end := CommentEnd(s, start);
    if i < end {
      assert !StandardShown(s, i, i);
      WithinComment(s, start, i);
      var next := StandardEnd(s, i);
      forall k | next <= k < end ensures !StandardShown(s, next, k) {
        assert !StandardShown(s, i, k);
      }
      HiddenIsComments(s, start, next);
    }
  }

  lemma EndsInOrder(s: string, i: nat)
    requires At(s, "<!--", i)
    ensures StandardEnd(s, i) <= CommentEnd(s, i)
    ensures !Abrupt(s, i) ==> StandardEnd(s, i) == CommentEnd(s, i)
    ensures Abrupt(s, i) ==> StandardEnd(s, i) > i + 4
  {
    var close := IndexOf(s, "-->", i + 4);
    if close.Some? { assert At(s, "-->", close.value); }
  }

  lemma TextGoesOn(s: string, i: nat)
    requires i < |s| && !At(s, "<!--", i)
    ensures SameFrom(s, i) <==> SameFrom(s, i + 1)
  {
    var next := i + 1;
    forall k | next <= k < |s|
      ensures ShownFrom(s, i, k) == ShownFrom(s, next, k) && StandardShown(s, i, k) == StandardShown(s, next, k)
    {
    }
    assert ShownFrom(s, i, i) && StandardShown(s, i, i);
    if SameFrom(s, i) {
      forall k | next <= k < |s| ensures ShownFrom(s, next, k) <==> StandardShown(s, next, k) {
        assert ShownFrom(s, i, k) <==> StandardShown(s, i, k);
      }
    }
    if SameFrom(s, next) {
      forall k | i <= k < |s| ensures ShownFrom(s, i, k) <==> StandardShown(s, i, k) {
        if k > i { assert ShownFrom(s, next, k) <==> StandardShown(s, next, k); }
      }
    }
  }

  lemma CommentGoesOn(s: string, i: nat)
    requires i < |s| && At(s, "<!--", i) && OnlyComments(s, StandardEnd(s, i), CommentEnd(s, i))
    ensures SameFrom(s, i) <==> SameFrom(s, CommentEnd(s, i))
  {
    var end := CommentEnd(s, i);
    EndsInOrder(s, i);
    forall k | i <= k < |s|
      ensures if k < end then !ShownFrom(s, i, k) && !StandardShown(s, i, k)
              else ShownFrom(s, i, k) == ShownFrom(s, end, k) && StandardShown(s, i, k) == StandardShown(s, end, k)
    {
      CommentIsHidden(s, i, k);
      if k >= StandardEnd(s, i) { CommentsHide(s, StandardEnd(s, i), end, k); }
    }
    if SameFrom(s, i) {
      forall k | end <= k < |s| ensures ShownFrom(s, end, k) <==> StandardShown(s, end, k) {
        assert ShownFrom(s, i, k) <==> StandardShown(s, i, k);
      }
    }
  }

  lemma TextIsMissed(s: string, i: nat)
    requires i < |s| && At(s, "<!--", i) && !OnlyComments(s, StandardEnd(s, i), CommentEnd(s, i))
    ensures !SameFrom(s, i)
  {
    var next, end := StandardEnd(s, i), CommentEnd(s, i);
    EndsInOrder(s, i);
    if forall k | next <= k < end :: !StandardShown(s, next, k) {
      HiddenIsComments(s, i, next);
    } else {
      var k :| next <= k < end && StandardShown(s, next, k);
      CommentIsHidden(s, i, k);
      assert StandardShown(s, i, k) && !ShownFrom(s, i, k);
    }
  }

  /** Both readings of the rest of a node hide the same characters exactly when no abruptly closed
      comment has text behind it before the next close, or before the end where there is none. */
  lemma {:induction false} ReadingsAgreeExactly(s: string, i: nat)
    requires i <= |s|
    ensures SameFrom(s, i) <==> Tidy(s, i)
    decreases |s| - i
  {
    if i < |s| {
      if !At(s, "<!--", i) {
        TextGoesOn(s, i);
        ReadingsAgreeExactly(s, i + 1);
      } else if OnlyComments(s, StandardEnd(s, i), CommentEnd(s, i)) {
        CommentGoesOn(s, i);
        ReadingsAgreeExactly(s, CommentEnd(s, i));
      } else {
        TextIsMissed(s, i);
      }
    }
  }

  /** In particular without abruptly closed comments. */
  lemma {:induction false} NothingAbruptIsTidy(s: string, i: nat)
    requires i <= |s| && forall j | i <= j < |s| :: !Abrupt(s, j)
    ensures Tidy(s, i)
    decreases |s| - i
  {
    if i < |s| {
      if At(s, "<!--", i) {
        EndsInOrder(s, i);
        NothingAbruptIsTidy(s, CommentEnd(s, i));
      } else {
        NothingAbruptIsTidy(s, i + 1);
      }
    }
  }

  /** A reader of `<!--> x` sees the x, and the scan hides it. */
  lemma AbruptCommentHidesText()
    ensures var value := "<!--> x";
      !Tidy(value, 0) && StandardShown(value, 0, 6) && !ShownFrom(value, 0, 6)
  {
    var value := "<!--> x";
    assert value[0..4] == "<!--" && value[0..5] == "<!-->";
    assert At(value, "<!--", 0) && StandardEnd(value, 0) == 5;
    assert !At(value, "<!--", 5) && !At(value, "<!--", 6);
    assert StandardShown(value, 5, 6);
    CommentIsHidden(value, 0, 6);
    assert IndexOf(value, "-->", 4).None? by {
      if IndexOf(value, "-->", 4).Some? {
        var c := IndexOf(value, "-->", 4).value;
        assert c == 4 && value[4..7][0] == '>';
      }
    }
    ReadingsAgreeExactly(value, 0);
    assert ShownFrom(value, 0, 6) != StandardShown(value, 0, 6);
  }
}
