/**
 * Text clean-up, truncation and upload lookup of the PDF service
 * (server/src/services/pdf.service.ts).  Reading the file, pdf-parse and
 * the directory listing are inputs of the model.
 */
module PdfText {
  import opened Wrappers
  import opened JsValues

  const MaxChars: nat := 60000
  const TruncationMarker: string := "\n\n[... truncated for length ...]"

  // ---------------------------------------------------------------------
  // replace(/\s+/g, ' ')
  // ---------------------------------------------------------------------

  /** Positions `i` and `i + 1` both hold whitespace. */
  predicate SpacePair(s: string, i: nat)
    requires i + 1 < |s|
  {
    IsJsWhitespace(s[i]) && IsJsWhitespace(s[i + 1])
  }

  /** Every whitespace character is a plain space and no two are adjacent. */
  predicate SingleSpaced(s: string)
  {
    && (forall i :: 0 <= i < |s| && IsJsWhitespace(s[i]) ==> s[i] == ' ')
    && (forall i: nat :: i + 1 < |s| ==> !SpacePair(s, i))
  }

  /** Each maximal run of whitespace becomes one space. */
  function CollapseWhitespace(s: string): (r: string)
    ensures |r| <= |s|
    ensures r == [] <==> s == []
    ensures r != [] ==> (IsJsWhitespace(r[0]) <==> IsJsWhitespace(s[0]))
    ensures SingleSpaced(r)
    decreases |s|
  {
    if s == [] then []
    else if IsJsWhitespace(s[0]) then
      var rest := s[LeadingSpace(s)..];
      var tail := CollapseWhitespace(rest);
      assert rest != [] ==> !IsJsWhitespace(rest[0]);
      var r := [' '] + tail;
      assert forall i :: 1 <= i < |r| ==> r[i] == tail[i - 1];
      assert forall i: nat :: 1 <= i && i + 1 < |r| ==> SpacePair(r, i) == SpacePair(tail, i - 1);
      r
    else
      var tail := CollapseWhitespace(s[1..]);
      var r := [s[0]] + tail;
      assert forall i :: 1 <= i < |r| ==> r[i] == tail[i - 1];
      assert forall i: nat :: 1 <= i && i + 1 < |r| ==> SpacePair(r, i) == SpacePair(tail, i - 1);
      r
  }

  /** Text that is already single-spaced is left as it is. */
  lemma {:induction false} CollapseSingleSpaced(s: string)
    requires SingleSpaced(s)
    ensures CollapseWhitespace(s) == s
    decreases |s|
  {
    if s != [] {
      forall i: nat | i + 1 < |s[1..]| ensures !SpacePair(s[1..], i) {
        assert !SpacePair(s, i + 1);
      }
      if IsJsWhitespace(s[0]) {
        assert LeadingSpace(s) == 1 by {
          if |s| > 1 { assert !SpacePair(s, 0); }
          assert SpaceFrom(s, 1) == 0;
        }
      }
      CollapseSingleSpaced(s[1..]);
    }
  }

  /** A character other than whitespace is copied as it is. */
  lemma CollapseWord(c: char, s: string)
    requires !IsJsWhitespace(c)
    ensures CollapseWhitespace([c] + s) == [c] + CollapseWhitespace(s)
  {
    assert ([c] + s)[0] == c && ([c] + s)[1..] == s;
  }

  /** A whitespace run that ends at `n` (the end, or a character other than whitespace) is `n - i` long from `i`. */
  lemma {:induction false} SpaceFromRun(t: string, i: nat, n: nat)
    requires i <= n <= |t|
    requires forall j :: i <= j < n ==> IsJsWhitespace(t[j])
    requires n == |t| || !IsJsWhitespace(t[n])
    ensures SpaceFrom(t, i) == n - i
    decreases n - i
  {
    if i < n {
      SpaceFromRun(t, i + 1, n);
    }
  }

  /**
   * A whole whitespace run, however long and whatever its characters,
   * becomes exactly one space, and the text after it is collapsed on.
   */
  lemma CollapseRun(w: string, s: string)
    requires w != [] && AllWhitespace(w)
    requires s == [] || !IsJsWhitespace(s[0])
    ensures CollapseWhitespace(w + s) == " " + CollapseWhitespace(s)
  {
    var t := w + s;
    assert forall j :: 0 <= j < |w| ==> t[j] == w[j];
    SpaceFromRun(t, 0, |w|);
    assert t[|w|..] == s;
  }

  /** For instance a tab between two words becomes one space. */
  lemma TabBecomesSpace()
    ensures CollapseWhitespace("a\tb") == "a b"
  {
    CollapseWord('b', "");
    CollapseRun("\t", "b");
    assert "\tb" == "\t" + "b";
    CollapseWord('a', "\tb");
    assert "a\tb" == ['a'] + "\tb";
  }

  /** The non-whitespace characters of `s`, in order. */
  function NonWhitespace(s: string): string
    decreases |s|
  {
    if s == [] then []
    else (if IsJsWhitespace(s[0]) then [] else [s[0]]) + NonWhitespace(s[1..])
  }

  lemma {:induction false} NonWhitespaceAppend(a: string, b: string)
    ensures NonWhitespace(a + b) == NonWhitespace(a) + NonWhitespace(b)
    decreases |a|
  {
    if a != [] {
      var head := if IsJsWhitespace(a[0]) then [] else [a[0]];
      assert (a + b)[0] == a[0] && (a + b)[1..] == a[1..] + b;
      assert NonWhitespace(a + b) == head + NonWhitespace(a[1..] + b);
      NonWhitespaceAppend(a[1..], b);
    } else {
      assert a + b == b;
    }
  }

  lemma {:induction false} NonWhitespaceOfSpace(s: string)
    requires AllWhitespace(s)
    ensures NonWhitespace(s) == []
    decreases |s|
  {
    if s != [] {
      NonWhitespaceOfSpace(s[1..]);
    }
  }

  /** Collapsing keeps every non-whitespace character, in order: only whitespace runs change. */
  lemma {:induction false} CollapseKeepsText(s: string)
    ensures NonWhitespace(CollapseWhitespace(s)) == NonWhitespace(s)
    decreases |s|
  {
    if s != [] {
      if IsJsWhitespace(s[0]) {
        var k := LeadingSpace(s);
        LeadingSpaceAll(s);
        assert s == s[..k] + s[k..];
        NonWhitespaceAppend(s[..k], s[k..]);
        NonWhitespaceOfSpace(s[..k]);
        CollapseKeepsText(s[k..]);
        NonWhitespaceAppend(" ", CollapseWhitespace(s[k..]));
      } else {
        CollapseKeepsText(s[1..]);
        NonWhitespaceAppend([s[0]], CollapseWhitespace(s[1..]));
      }
    }
  }

  // ---------------------------------------------------------------------
  // replace(/\n{3,}/g, '\n\n')
  // ---------------------------------------------------------------------

  /** The number of newlines `s` starts with. */
  function NewlineRun(s: string): (k: nat)
    ensures k <= |s| && forall i :: 0 <= i < k ==> s[i] == '\n'
    ensures k < |s| ==> s[k] != '\n'
  {
    if s != [] && s[0] == '\n' then 1 + NewlineRun(s[1..]) else 0
  }

  predicate NoTripleNewline(s: string)
  {
    forall i :: 0 <= i < |s| - 2 ==> !(s[i] == '\n' && s[i + 1] == '\n' && s[i + 2] == '\n')
  }

  /** Each maximal run of three or more newlines becomes exactly two. */
  function CollapseNewlineRuns(s: string): (r: string)
    ensures |r| <= |s|
    ensures NoTripleNewline(r)
    ensures r != [] <==> s != []
    ensures r != [] ==> (r[0] == '\n' <==> s[0] == '\n')
    decreases |s|
  {
    if s == [] then []
    else if s[0] == '\n' then
      var k := NewlineRun(s);
      var run := if k >= 3 then "\n\n" else s[..k];
      var tail := CollapseNewlineRuns(s[k..]);
      NoTripleAfterRun(run, tail);
      run + tail
    else
      var tail := CollapseNewlineRuns(s[1..]);
      NoTripleAfterChar(s[0], tail);
      [s[0]] + tail
  }

  /** At most two newlines before text that does not start with one make no triple. */
  lemma NoTripleAfterRun(run: string, tail: string)
    requires |run| <= 2 && forall i :: 0 <= i < |run| ==> run[i] == '\n'
    requires NoTripleNewline(tail) && (tail != [] ==> tail[0] != '\n')
    ensures NoTripleNewline(run + tail)
  {
    assert forall i :: |run| <= i < |run + tail| ==> (run + tail)[i] == tail[i - |run|];
  }

  /** A character other than a newline in front adds no triple. */
  lemma NoTripleAfterChar(c: char, tail: string)
    requires c != '\n' && NoTripleNewline(tail)
    ensures NoTripleNewline([c] + tail)
  {
    assert forall i :: 1 <= i < |[c] + tail| ==> ([c] + tail)[i] == tail[i - 1];
  }

  /** Without newlines there is nothing to collapse. */
  lemma {:induction false} CollapseNewlinesNoop(s: string)
    requires forall i :: 0 <= i < |s| ==> s[i] != '\n'
    ensures CollapseNewlineRuns(s) == s
    decreases |s|
  {
    if s != [] {
      CollapseNewlinesNoop(s[1..]);
    }
  }

  /** The characters of `s` other than '\n', in order. */
  function WithoutNewlines(s: string): string
    decreases |s|
  {
    if s == [] then []
    else (if s[0] == '\n' then [] else [s[0]]) + WithoutNewlines(s[1..])
  }

  lemma {:induction false} WithoutNewlinesAppend(a: string, b: string)
    ensures WithoutNewlines(a + b) == WithoutNewlines(a) + WithoutNewlines(b)
    decreases |a|
  {
    if a != [] {
      var head := if a[0] == '\n' then [] else [a[0]];
      assert (a + b)[0] == a[0] && (a + b)[1..] == a[1..] + b;
      assert WithoutNewlines(a + b) == head + WithoutNewlines(a[1..] + b);
      WithoutNewlinesAppend(a[1..], b);
    } else {
      assert a + b == b;
    }
  }

  lemma {:induction false} WithoutNewlinesOfRun(s: string)
    requires forall i :: 0 <= i < |s| ==> s[i] == '\n'
    ensures WithoutNewlines(s) == []
    decreases |s|
  {
    if s != [] {
      WithoutNewlinesOfRun(s[1..]);
    }
  }

  /** Collapsing newline runs keeps every other character, in order. */
  lemma {:induction false} CollapseNewlinesKeepText(s: string)
    ensures WithoutNewlines(CollapseNewlineRuns(s)) == WithoutNewlines(s)
    decreases |s|
  {
    if s != [] {
      if s[0] == '\n' {
        var k := NewlineRun(s);
        var run := if k >= 3 then "\n\n" else s[..k];
        assert s == s[..k] + s[k..];
        WithoutNewlinesAppend(s[..k], s[k..]);
        WithoutNewlinesOfRun(s[..k]);
        WithoutNewlinesOfRun(run);
        CollapseNewlinesKeepText(s[k..]);
        WithoutNewlinesAppend(run, CollapseNewlineRuns(s[k..]));
      } else {
        CollapseNewlinesKeepText(s[1..]);
        WithoutNewlinesAppend([s[0]], CollapseNewlineRuns(s[1..]));
      }
    }
  }

  // ---------------------------------------------------------------------
  // The clean-up chain and the length cap
  // ---------------------------------------------------------------------

  /** `text.replace(/\s+/g, ' ').replace(/\n{3,}/g, '\n\n').trim()` */
  function Cleanup(text: string): (r: string)
    ensures |r| <= |text|
  {
    Trim(CollapseNewlineRuns(CollapseWhitespace(text)))
  }

  /** Trimming text without leading or trailing whitespace changes nothing. */
  lemma TrimTrimmed(s: string)
    requires s == [] || (!IsJsWhitespace(s[0]) && !IsJsWhitespace(s[|s| - 1]))
    ensures Trim(s) == s
  {
    if s != [] {
      assert LeadingSpace(s) == 0 && TrailingSpace(s) == 0;
      assert s[0..|s|] == s;
    }
  }

  /** A slice of single-spaced text is single-spaced. */
  lemma SliceSingleSpaced(s: string, a: nat, b: nat)
    requires a <= b <= |s| && SingleSpaced(s)
    ensures SingleSpaced(s[a..b])
  {
    var t := s[a..b];
    assert forall i :: 0 <= i < |t| ==> t[i] == s[a + i];
    forall i: nat | i + 1 < |t| ensures !SpacePair(t, i) {
      assert !SpacePair(s, a + i);
    }
  }

  /** Single-spaced text holds no newline: its only whitespace is ' '. */
  lemma SingleSpacedNoNewline(s: string)
    requires SingleSpaced(s)
    ensures forall i :: 0 <= i < |s| ==> s[i] != '\n'
  {
    forall i | 0 <= i < |s| ensures s[i] != '\n' {
      if s[i] == '\n' { assert IsJsWhitespace(s[i]); }
    }
  }

  /**
   * Trimming keeps text single-spaced, so without newlines, and leaves no
   * whitespace at either end.
   */
  lemma TrimSingleSpaced(s: string)
    requires SingleSpaced(s)
    ensures SingleSpaced(Trim(s)) && |Trim(s)| <= |s|
    ensures forall i :: 0 <= i < |Trim(s)| ==> Trim(s)[i] != '\n'
    ensures Trim(s) == [] || (!IsJsWhitespace(Trim(s)[0]) && !IsJsWhitespace(Trim(s)[|Trim(s)| - 1]))
  {
    TrimSlice(s);
    var a, b :| 0 <= a <= b <= |s| && Trim(s) == s[a..b];
    SliceSingleSpaced(s, a, b);
    SingleSpacedNoNewline(Trim(s));
  }

  /** The newline step has nothing to do after the whitespace step, so clean-up is the trimmed collapse. */
  lemma CleanupSkipsNewlines(text: string)
    ensures CollapseNewlineRuns(CollapseWhitespace(text)) == CollapseWhitespace(text)
    ensures Cleanup(text) == Trim(CollapseWhitespace(text))
  {
    var w := CollapseWhitespace(text);
    SingleSpacedNoNewline(w);
    CollapseNewlinesNoop(w);
  }

  /** The shape of `c`, the trim of single-spaced text `w` no longer than `text`. */
  lemma TrimmedShape(c: string, w: string, text: string)
    requires SingleSpaced(w) && |w| <= |text| && c == Trim(w)
    ensures SingleSpaced(c) && |c| <= |text|
    ensures forall i :: 0 <= i < |c| ==> c[i] != '\n'
    ensures c == [] || (!IsJsWhitespace(c[0]) && !IsJsWhitespace(c[|c| - 1]))
  {
    TrimSingleSpaced(w);
  }

  /**
   * After clean-up every whitespace run is a single space, so there is no
   * newline at all; there is no leading or trailing whitespace; and the text
   * is no longer than before.
   */
  lemma CleanupNormalForm(text: string)
    ensures SingleSpaced(Cleanup(text))
    ensures forall i :: 0 <= i < |Cleanup(text)| ==> Cleanup(text)[i] != '\n'
    ensures Cleanup(text) == [] || (!IsJsWhitespace(Cleanup(text)[0]) && !IsJsWhitespace(Cleanup(text)[|Cleanup(text)| - 1]))
    ensures |Cleanup(text)| <= |text|
  {
    CleanupSkipsNewlines(text);
    TrimmedShape(Cleanup(text), CollapseWhitespace(text), text);
  }

  /** Trimming cuts only whitespace, so it keeps every other character. */
  lemma TrimKeepsText(w: string)
    ensures NonWhitespace(Trim(w)) == NonWhitespace(w)
  {
    var a := LeadingSpace(w);
    LeadingSpaceAll(w);
    if a == |w| {
      assert w[..a] == w;
      NonWhitespaceOfSpace(w);
    } else {
      var k := TrailingSpace(w);
      TrailingSpaceAfter(w, a);
      TrailingSpaceAll(w);
      SpaceAroundKeepsText(w[..a], w[a..|w| - k], w[|w| - k..]);
      assert w == w[..a] + w[a..|w| - k] + w[|w| - k..];
    }
  }

  lemma SpaceAroundKeepsText(x: string, y: string, z: string)
    requires AllWhitespace(x) && AllWhitespace(z)
    ensures NonWhitespace(x + y + z) == NonWhitespace(y)
  {
    NonWhitespaceAppend(x + y, z);
    NonWhitespaceAppend(x, y);
    NonWhitespaceOfSpace(x);
    NonWhitespaceOfSpace(z);
  }

  /** Clean-up keeps every non-whitespace character of the text, in order. */
  lemma CleanupKeepsText(text: string)
    ensures NonWhitespace(Cleanup(text)) == NonWhitespace(text)
  {
    CleanupSkipsNewlines(text);
    CollapseKeepsText(text);
    TrimKeepsText(CollapseWhitespace(text));
  }

  /** Text without whitespace is copied through the whitespace step. */
  lemma {:induction false} CollapseWords(a: string, x: string)
    requires forall i :: 0 <= i < |a| ==> !IsJsWhitespace(a[i])
    ensures CollapseWhitespace(a + x) == a + CollapseWhitespace(x)
    decreases |a|
  {
    if a == [] {
      assert a + x == x;
    } else {
      assert a + x == [a[0]] + (a[1..] + x);
      CollapseWord(a[0], a[1..] + x);
      CollapseWords(a[1..], x);
      assert a == [a[0]] + a[1..];
    }
  }

  /** Two words with any whitespace run between them clean to the words joined by one space. */
  lemma CleanupJoinsWords(a: string, w: string, b: string)
    requires a != [] && b != [] && w != [] && AllWhitespace(w)
    requires forall i :: 0 <= i < |a| ==> !IsJsWhitespace(a[i])
    requires forall i :: 0 <= i < |b| ==> !IsJsWhitespace(b[i])
    ensures Cleanup(a + w + b) == a + " " + b
  {
    CollapseWords(b, []);
    assert b + [] == b;
    CollapseRun(w, b);
    assert a + w + b == a + (w + b);
    CollapseWords(a, w + b);
    assert CollapseWhitespace(a + w + b) == a + " " + b;
    CleanupSkipsNewlines(a + w + b);
    TrimTrimmed(a + " " + b);
  }

  /** Cleaning clean text changes nothing. */
  lemma CleanupIdempotent(text: string)
    ensures Cleanup(Cleanup(text)) == Cleanup(text)
  {
    var c := Cleanup(text);
    CleanupNormalForm(text);
    CollapseSingleSpaced(c);
    CollapseNewlinesNoop(c);
    TrimTrimmed(c);
  }

  /**
   * extractText after the document has been decoded: `decoded` is what
   * reading the file and pdf-parse produced, or the message of the error
   * either of them raised.
   */
  function ExtractText(decoded: Result<string>): (r: Result<string>)
    ensures decoded.Err? ==> r == Err("Failed to extract PDF: " + decoded.error)
    ensures decoded.Ok? ==> r.Ok?
    ensures decoded.Ok? && |Cleanup(decoded.value)| <= MaxChars ==> r.value == Cleanup(decoded.value)
    ensures decoded.Ok? && |Cleanup(decoded.value)| > MaxChars ==>
              r.value == Cleanup(decoded.value)[..MaxChars] + TruncationMarker
    ensures decoded.Ok? ==> |r.value| <= MaxChars + |TruncationMarker|
  {
    match decoded
    case Err(message) => Err("Failed to extract PDF: " + message)
    case Ok(raw) =>
      var text := Cleanup(raw);
      if |text| > MaxChars then Ok(text[..MaxChars] + TruncationMarker) else Ok(text)
  }

  // ---------------------------------------------------------------------
  // getFilePath
  // ---------------------------------------------------------------------

  predicate StartsWith(s: string, prefix: string)
  {
    |prefix| <= |s| && s[..|prefix|] == prefix
  }

  /** The index of the first listing entry that starts with `uploadId`. */
  function FindUpload(files: seq<string>, uploadId: string): (k: Option<nat>)
    ensures k.Some? ==> (k.value < |files| && StartsWith(files[k.value], uploadId)
                         && forall j :: 0 <= j < k.value ==> !StartsWith(files[j], uploadId))
    ensures k.None? ==> forall j :: 0 <= j < |files| ==> !StartsWith(files[j], uploadId)
  {
    if files == [] then None
    else if StartsWith(files[0], uploadId) then Some(0)
    else match FindUpload(files[1..], uploadId)
      case None => None
      case Some(k) => Some(k + 1)
  }

  /** path.join, for a directory and a plain file name. */
  function JoinPath(dir: string, file: string): (r: string)
    ensures |r| == |dir| + 1 + |file| && r[..|dir|] == dir && r[|dir|] == '/' && r[|dir| + 1..] == file
  {
    dir + "/" + file
  }

  /** getFilePath, given the entries of the uploads directory. */
  function GetFilePath(uploadsDir: string, files: seq<string>, uploadId: string): (r: Result<string>)
    ensures r.Err? <==> forall j :: 0 <= j < |files| ==> !StartsWith(files[j], uploadId)
    ensures r.Err? ==> r.error == "Upload not found"
    ensures r.Ok? ==> (exists k :: 0 <= k < |files| && StartsWith(files[k], uploadId)
                         && (forall j :: 0 <= j < k ==> !StartsWith(files[j], uploadId))
                         && r.value == JoinPath(uploadsDir, files[k]))
  {
    match FindUpload(files, uploadId)
    case None => Err("Upload not found")
    case Some(k) => Ok(JoinPath(uploadsDir, files[k]))
  }
}
