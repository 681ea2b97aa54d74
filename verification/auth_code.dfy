/** Recovering the authorization code from the redirect URL the user pastes
    after logging in: the text after the last "code=". The extraction is
    Python's `str.split` with a separator, followed by taking the last piece. */
module AuthCode {

  /** The marker the pasted redirect text is split on. */
  const CodeMarker: string := "code="

  /** `sep` occurs in `s` starting at position `i`. */
  predicate OccursAt(s: string, sep: string, i: int)
  {
    0 <= i && i + |sep| <= |s| && s[i..i + |sep|] == sep
  }

  /** `sep` occurs somewhere in `s`. */
  predicate Contains(s: string, sep: string)
  {
    exists i :: 0 <= i <= |s| && OccursAt(s, sep, i)
  }

  /** `s.split(sep)` for a non-empty `sep`: scanning from the left, each
      occurrence of `sep` ends one piece and starts the next; occurrences
      found do not overlap. */
  function Split(s: string, sep: string): (parts: seq<string>)
    requires sep != []
    ensures |parts| >= 1
    decreases |s|
  {
    if |s| < |sep| then [s]
    else if s[..|sep|] == sep then [""] + Split(s[|sep|..], sep)
    else
      var rest := Split(s[1..], sep);
      [[s[0]] + rest[0]] + rest[1..]
  }

  /** `sep.join(parts)`. */
  function Join(parts: seq<string>, sep: string): (s: string)
    requires |parts| >= 1
  {
    if |parts| == 1 then parts[0] else parts[0] + sep + Join(parts[1..], sep)
  }

  /** `code.split("code=")[-1]`. */
  function ExtractCode(pasted: string): (code: string)
    ensures |code| <= |pasted| && code == pasted[|pasted| - |code|..]
    ensures !Contains(code, CodeMarker)
    ensures Contains(pasted, CodeMarker) ==>
              |code| + |CodeMarker| <= |pasted|
              && pasted[|pasted| - |code| - |CodeMarker|..|pasted| - |code|] == CodeMarker
    ensures !Contains(pasted, CodeMarker) ==> code == pasted
  {
    var parts := Split(pasted, CodeMarker);
    SplitLastPiece(pasted, CodeMarker);
    SplitWithoutSeparator(pasted, CodeMarker);
    parts[|parts| - 1]
  }

  /** An occurrence one position into `s` is an occurrence in its tail. */
  lemma OccursAtTail(s: string, sep: string, i: int)
    requires |s| > 0 && 0 <= i
    ensures OccursAt(s, sep, i + 1) <==> OccursAt(s[1..], sep, i)
  {
  }

  /** Putting a character in front of the first piece puts it in front of
      the joined text. */
  lemma JoinPrepend(c: char, parts: seq<string>, sep: string)
    requires |parts| >= 1
    ensures Join([[c] + parts[0]] + parts[1..], sep) == [c] + Join(parts, sep)
  {
  }

  /** Splitting and joining back gives the original text. */
  lemma {:induction false} JoinSplit(s: string, sep: string)
    requires sep != []
    ensures Join(Split(s, sep), sep) == s
    decreases |s|
  {
    if |s| < |sep| {
    } else if s[..|sep|] == sep {
      var rest := Split(s[|sep|..], sep);
      JoinSplit(s[|sep|..], sep);
      assert Split(s, sep) == [""] + rest;
      assert ([""] + rest)[1..] == rest;
      assert Join([""] + rest, sep) == "" + sep + Join(rest, sep);
      assert s == s[..|sep|] + s[|sep|..];
    } else {
      var rest := Split(s[1..], sep);
      JoinSplit(s[1..], sep);
      assert Split(s, sep) == [[s[0]] + rest[0]] + rest[1..];
      JoinPrepend(s[0], rest, sep);
      assert s == [s[0]] + s[1..];
    }
  }

  /** Joining peels off the last piece after the last separator. */
  lemma {:induction false} JoinLast(parts: seq<string>, sep: string)
    requires |parts| > 1
    ensures Join(parts, sep)
            == Join(parts[..|parts| - 1], sep) + sep + parts[|parts| - 1]
  {
    if |parts| > 2 {
      JoinLast(parts[1..], sep);
      assert parts[1..][..|parts| - 2] == parts[..|parts| - 1][1..];
    }
  }

  /** Text with no occurrence at its start and none in its tail has none. */
  lemma NoneAtHeadNorInTail(s: string, sep: string)
    requires |s| > 0
    requires !OccursAt(s, sep, 0)
    requires !Contains(s[1..], sep)
    ensures !Contains(s, sep)
  {
    forall i | 0 <= i <= |s| && OccursAt(s, sep, i) ensures false {
      OccursAtTail(s, sep, i - 1);
    }
  }

  /** The last piece holds no occurrence of the separator. */
  lemma {:induction false} LastPieceFree(s: string, sep: string)
    requires sep != []
    ensures var parts := Split(s, sep); !Contains(parts[|parts| - 1], sep)
    decreases |s|
  {
    var parts := Split(s, sep);
    if |s| < |sep| {
      assert parts == [s];
      forall i | OccursAt(s, sep, i) ensures false { }
    } else if s[..|sep|] == sep {
      var rest := Split(s[|sep|..], sep);
      LastPieceFree(s[|sep|..], sep);
      assert parts[|parts| - 1] == rest[|rest| - 1];
    } else {
      var rest := Split(s[1..], sep);
      LastPieceFree(s[1..], sep);
      if |rest| == 1 {
        JoinSplit(s[1..], sep);
        assert rest == [s[1..]];
        assert parts == [[s[0]] + s[1..]] && [s[0]] + s[1..] == s;
        NoneAtHeadNorInTail(s, sep);
      } else {
        assert parts[|parts| - 1] == rest[|rest| - 1];
      }
    }
  }

  /** Text without the separator splits into itself alone. */
  lemma {:induction false} NoSeparatorOnePiece(s: string, sep: string)
    requires sep != []
    requires !Contains(s, sep)
    ensures Split(s, sep) == [s]
    decreases |s|
  {
    if |s| >= |sep| {
      assert !OccursAt(s, sep, 0);
      forall i | OccursAt(s[1..], sep, i) ensures OccursAt(s, sep, i + 1) {
        OccursAtTail(s, sep, i);
      }
      NoSeparatorOnePiece(s[1..], sep);
      assert [s[0]] + s[1..] == s;
    }
  }

  /** The last piece is a suffix of the text; when the text has more than one
      piece, the separator stands right before it. */
  lemma SplitLastPiece(s: string, sep: string)
    requires sep != []
    ensures var parts := Split(s, sep);
            var last := parts[|parts| - 1];
            && |last| <= |s| && last == s[|s| - |last|..]
            && !Contains(last, sep)
            && (|parts| > 1 ==> |last| + |sep| <= |s|
                                && s[|s| - |last| - |sep|..|s| - |last|] == sep)
  {
    var parts := Split(s, sep);
    var last := parts[|parts| - 1];
    JoinSplit(s, sep);
    LastPieceFree(s, sep);
    if |parts| > 1 {
      JoinLast(parts, sep);
      var front := Join(parts[..|parts| - 1], sep);
      assert s == front + sep + last;
      assert s[|s| - |last| - |sep|..|s| - |last|] == sep;
    }
  }

  /** The text splits into more than one piece exactly when it contains the
      separator, and into itself alone otherwise. */
  lemma SplitWithoutSeparator(s: string, sep: string)
    requires sep != []
    ensures |Split(s, sep)| > 1 <==> Contains(s, sep)
    ensures !Contains(s, sep) ==> Split(s, sep) == [s]
  {
    if !Contains(s, sep) {
      NoSeparatorOnePiece(s, sep);
    } else if |Split(s, sep)| == 1 {
      JoinSplit(s, sep);
      LastPieceFree(s, sep);
      assert false;
    }
  }
}
