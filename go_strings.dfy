/**
  The pieces of Go's `strings` package that the metadata and auth cores call:
  `strings.Split` with a one-character separator and `strings.ToLower` on ASCII,
  plus the "non-empty segments" view of a split path used by SaveMetadata.
 */
module GoStrings {

  /** `strings.Split(s, string(sep))`: the pieces between separators, in order.
      Built from the right so that splitting `s + [c]` unfolds in one step. */
  function Split(s: string, sep: char): (parts: seq<string>)
    ensures |parts| >= 1
  {
    if s == [] then [[]]
    else
      var init := Split(s[..|s| - 1], sep);
      var c := s[|s| - 1];
      if c == sep then init + [[]]
      else init[..|init| - 1] + [init[|init| - 1] + [c]]
  }

  /** `strings.Join(parts, string(sep))`. */
  function Join(parts: seq<string>, sep: char): string
    requires |parts| >= 1
  {
    if |parts| == 1 then parts[0]
    else Join(parts[..|parts| - 1], sep) + [sep] + parts[|parts| - 1]
  }

  predicate NoSep(w: string, sep: char) {
    forall i :: 0 <= i < |w| ==> w[i] != sep
  }

  /** Splitting loses nothing: joining the pieces gives the string back. */
  lemma {:induction false} SplitJoin(s: string, sep: char)
    ensures Join(Split(s, sep), sep) == s
  {
    if s != [] {
      var s' := s[..|s| - 1];
      var c := s[|s| - 1];
      SplitJoin(s', sep);
      var init := Split(s', sep);
      if c == sep {
        assert Join(init + [[]], sep) == Join(init, sep) + [sep] + [];
      } else {
        JoinExtendLast(init, c, sep);
      }
      assert s == s' + [c];
    }
  }

  /** A character added to the last piece lands at the end of the join. */
  lemma JoinExtendLast(parts: seq<string>, c: char, sep: char)
    requires |parts| >= 1
    ensures Join(parts[..|parts| - 1] + [parts[|parts| - 1] + [c]], sep) == Join(parts, sep) + [c]
  {
    var n := |parts|;
    var grown := parts[..n - 1] + [parts[n - 1] + [c]];
    if n > 1 {
      var j := Join(parts[..n - 1], sep);
      assert grown[..n - 1] == parts[..n - 1];
      assert Join(grown, sep) == j + [sep] + (parts[n - 1] + [c]);
    }
  }

  /** No piece of a split holds the separator. */
  lemma {:induction false} SplitPiecesNoSep(s: string, sep: char)
    ensures forall k :: 0 <= k < |Split(s, sep)| ==> NoSep(Split(s, sep)[k], sep)
  {
    if s != [] {
      var s' := s[..|s| - 1];
      var c := s[|s| - 1];
      SplitPiecesNoSep(s', sep);
      var init := Split(s', sep);
      var n := |init|;
      var parts := Split(s, sep);
      if c != sep {
        forall k | 0 <= k < |parts| ensures NoSep(parts[k], sep) {
          if k < n - 1 {
            assert parts[k] == init[k];
          } else {
            assert parts[k] == init[n - 1] + [c];
          }
        }
      } else {
        forall k | 0 <= k < |parts| ensures NoSep(parts[k], sep) {
          if k < n {
            assert parts[k] == init[k];
          }
        }
      }
    }
  }

  /** Splitting a piece that holds no separator gives that piece alone. */
  lemma {:induction false} SplitNoSep(w: string, sep: char)
    requires NoSep(w, sep)
    ensures Split(w, sep) == [w]
  {
    if w != [] {
      SplitNoSep(w[..|w| - 1], sep);
      assert w[..|w| - 1] + [w[|w| - 1]] == w;
    }
  }

  /** Appending a separator and a separator-free piece appends one part. */
  lemma {:induction false} SplitAppendPiece(a: string, sep: char, w: string)
    requires NoSep(w, sep)
    ensures Split(a + [sep] + w, sep) == Split(a, sep) + [w]
    decreases |w|
  {
    var s := a + [sep] + w;
    if w == [] {
      assert s[..|s| - 1] == a;
    } else {
      var w' := w[..|w| - 1];
      SplitAppendPiece(a, sep, w');
      assert s[..|s| - 1] == a + [sep] + w';
      assert w' + [w[|w| - 1]] == w;
    }
  }

  /** Joining separator-free pieces and splitting again gives the pieces back:
      together with SplitJoin, Split is exactly the inverse of Join. */
  lemma {:induction false} JoinSplit(parts: seq<string>, sep: char)
    requires |parts| >= 1
    requires forall k :: 0 <= k < |parts| ==> NoSep(parts[k], sep)
    ensures Split(Join(parts, sep), sep) == parts
  {
    if |parts| == 1 {
      SplitNoSep(parts[0], sep);
    } else {
      var init := parts[..|parts| - 1];
      JoinSplit(init, sep);
      SplitAppendPiece(Join(init, sep), sep, parts[|parts| - 1]);
    }
  }

  /** The non-empty strings of `parts`, in order: the path segments that
      SaveMetadata's two loops do not `continue` past. */
  function NonEmpty(parts: seq<string>): seq<string> {
    if parts == [] then []
    else
      var last := parts[|parts| - 1];
      NonEmpty(parts[..|parts| - 1]) + (if last == [] then [] else [last])
  }

  /** The non-empty segments are the pieces that are not empty, no more. */
  lemma {:induction false} NonEmptyMembers(parts: seq<string>)
    ensures |NonEmpty(parts)| <= |parts|
    ensures forall w :: w in NonEmpty(parts) <==> w in parts && w != []
  {
    if parts != [] {
      var init := parts[..|parts| - 1];
      NonEmptyMembers(init);
      assert parts == init + [parts[|parts| - 1]];
    }
  }

  /** The non-empty segments of a prefix are a prefix of the non-empty segments. */
  lemma {:induction false} NonEmptyPrefix(parts: seq<string>, i: nat)
    requires i <= |parts|
    ensures NonEmpty(parts[..i]) <= NonEmpty(parts)
    decreases |parts|
  {
    if i < |parts| {
      var init := parts[..|parts| - 1];
      NonEmptyPrefix(init, i);
      assert init[..i] == parts[..i];
    } else {
      assert parts[..i] == parts;
    }
  }

  /** One more element of the scan adds at most that element. */
  lemma NonEmptyStep(parts: seq<string>, i: nat)
    requires i < |parts|
    ensures NonEmpty(parts[..i + 1]) ==
            NonEmpty(parts[..i]) + (if parts[i] == [] then [] else [parts[i]])
  {
    assert parts[..i + 1][..i] == parts[..i];
  }

  /** One step of a scan over `parts` that has met the first `count` non-empty
      elements: an empty element changes nothing, a non-empty one is the next. */
  lemma ScanStep(parts: seq<string>, i: nat, count: nat)
    requires i < |parts| && count <= |NonEmpty(parts)|
    requires NonEmpty(parts[..i]) == NonEmpty(parts)[..count]
    ensures parts[i] == [] ==> NonEmpty(parts[..i + 1]) == NonEmpty(parts)[..count]
    ensures parts[i] != [] ==>
      count < |NonEmpty(parts)| && NonEmpty(parts)[count] == parts[i] &&
      NonEmpty(parts[..i + 1]) == NonEmpty(parts)[..count + 1]
  {
    NonEmptyStep(parts, i);
    if parts[i] != [] {
      NonEmptyPrefix(parts, i + 1);
      var segs := NonEmpty(parts);
      assert segs[..count] + [parts[i]] <= segs;
      assert segs[..count + 1] == segs[..count] + [parts[i]];
    }
  }

  /** A scan that reached the end has met every non-empty element. */
  lemma ScanEnd(parts: seq<string>, count: nat)
    requires count <= |NonEmpty(parts)|
    requires NonEmpty(parts[..|parts|]) == NonEmpty(parts)[..count]
    ensures count == |NonEmpty(parts)|
  {
    assert parts[..|parts|] == parts;
  }

  /** A path's folder segments: `strings.Split(path, "/")` without the empty ones. */
  function Segments(path: string): seq<string> {
    NonEmpty(Split(path, '/'))
  }

  /** The empty path and the bare "/" have no folder segments. */
  lemma RootPaths()
    ensures Segments("") == [] && Segments("/") == []
  {
    assert Split("", '/') == [[]];
    assert "/"[..0] == "";
    assert Split("/", '/') == [[], []];
  }

  /** Position of the first `c` in `s`, or `|s|` when there is none. */
  function IndexOf(s: string, c: char): (i: nat)
    ensures i <= |s|
    ensures forall j :: 0 <= j < i ==> s[j] != c
    ensures i < |s| ==> s[i] == c
  {
    if s == [] then 0
    else if s[0] == c then 0
    else 1 + IndexOf(s[1..], c)
  }

  /** `unicode.ToLower` on one character, for ASCII letters. */
  function LowerChar(c: char): char {
    if 'A' <= c <= 'Z' then (c as int + 32) as char else c
  }

  /** `strings.ToLower`, character by character. */
  function ToLower(s: string): (r: string)
    ensures |r| == |s|
    ensures forall i :: 0 <= i < |s| ==> r[i] == LowerChar(s[i])
  {
    if s == [] then [] else [LowerChar(s[0])] + ToLower(s[1..])
  }
}
