/**
  metadata/util/util.go: the file-extension check SaveMetadata makes before
  writing anything, and the builder of the Postgres array literal stored in
  FILE_METADATA.HASH_IDS.
 */
module MetadataUtil {
  import opened Outcomes

  /** `filepath.Ext` on '/'-separated paths, scanning positions `i - 1` down to 0:
      a separator ends the scan with no extension, a '.' ends it with the suffix
      that starts there. Positions `i..` have already been passed over. */
  function ExtFrom(path: string, i: nat): (e: string)
    requires i <= |path|
    requires forall j :: i <= j < |path| ==> path[j] != '.' && path[j] != '/'
    ensures e != [] ==> e[0] == '.' && |e| <= |path| && path[|path| - |e|..] == e
    ensures forall j :: 1 <= j < |e| ==> e[j] != '.' && e[j] != '/'
    ensures e == [] ==> forall j :: 0 <= j < i && path[j] == '.' ==> '/' in path[j + 1..i]
  {
    if i == 0 then []
    else if path[i - 1] == '/' then []
    else if path[i - 1] == '.' then path[i - 1..]
    else
      var e := ExtFrom(path, i - 1);
      assert e == [] ==> forall j :: 0 <= j < i - 1 && path[j] == '.' ==> '/' in path[j + 1..i] by {
        if e == [] {
          forall j | 0 <= j < i - 1 && path[j] == '.' ensures '/' in path[j + 1..i] {
            var k :| k in path[j + 1..i - 1] && k == '/';
            assert path[j + 1..i - 1] <= path[j + 1..i];
          }
        }
      }
      e
  }

  /** The extension of the last element of `path`: from its last '.' to the end. */
  function Ext(path: string): string {
    ExtFrom(path, |path|)
  }

  /** GetFileExtension: fails exactly when every '.' of the name is followed by a
      later '/', i.e. the last path element has no '.'; otherwise the extension is
      the suffix from the last '.', holding no other '.' and no '/'. */
  function GetFileExtension(fileName: string): (r: Option<string>)
    ensures r.None? <==> forall j :: 0 <= j < |fileName| && fileName[j] == '.' ==> '/' in fileName[j + 1..]
    ensures r.Some? ==> var e := r.value;
      && |e| >= 1 && e[0] == '.'
      && |e| <= |fileName| && fileName[|fileName| - |e|..] == e
      && forall j :: 1 <= j < |e| ==> e[j] != '.' && e[j] != '/'
  {
    var e := Ext(fileName);
    assert fileName[..] == fileName;
    if e == [] then None
    else
      var k := |fileName| - |e|;
      assert fileName[k] == '.';
      assert '/' !in fileName[k + 1..] by {
        assert fileName[k + 1..] == e[1..];
      }
      Some(e)
  }

  /** Only the last extension counts: "a.tar.gz" has extension ".gz". */
  lemma LastExtensionOnly()
    ensures Ext("a.tar.gz") == ".gz"
  {
    var p := "a.tar.gz";
    assert p[7] == 'z' && p[6] == 'g' && p[5] == '.';
    assert ExtFrom(p, 6) == p[5..] == ".gz";
  }

  /** A trailing '.' is an extension of its own, so "file." is accepted. */
  lemma TrailingDot()
    ensures GetFileExtension("file.") == Some(".")
  {
    assert "file."[4..] == ".";
  }

  /** No '.' at all, or a '.' only in a directory name: rejected. */
  lemma NoExtension()
    ensures GetFileExtension("README") == None
    ensures GetFileExtension("dir.d/file") == None
  {
    assert forall j :: 0 <= j < 6 ==> "README"[j] != '.';
    assert '/' in "dir.d/file"[4..] by { assert "dir.d/file"[5] == '/'; }
  }

  /** One hash as an element of the literal: wrapped in double quotes, unescaped. */
  function Quote(h: string): string {
    ['"'] + h + ['"']
  }

  /** The quoted hashes separated by single commas, without a trailing comma. */
  function QuotedList(hs: seq<string>): string {
    if hs == [] then []
    else if |hs| == 1 then Quote(hs[0])
    else Quote(hs[0]) + [','] + QuotedList(hs[1..])
  }

  /** The value FormatHashedChunks builds: `{`, the quoted list, `}`. */
  function ArrayLiteral(hs: seq<string>): string {
    ['{'] + QuotedList(hs) + ['}']
  }

  /** Appending one hash adds a comma (unless the list was empty) and its quoted form. */
  lemma {:induction false} QuotedListSnoc(hs: seq<string>, h: string)
    ensures QuotedList(hs + [h]) == QuotedList(hs) + (if hs == [] then [] else [',']) + Quote(h)
  {
    if |hs| >= 1 {
      QuotedListSnoc(hs[1..], h);
      assert (hs + [h])[1..] == hs[1..] + [h];
    }
  }

  /** What the loop has built after quoting the element at `i`. */
  lemma FormatStep(hs: seq<string>, i: nat)
    requires i < |hs|
    ensures ['{'] + QuotedList(hs[..i]) + (if i == 0 then [] else [',']) + Quote(hs[i]) ==
            ['{'] + QuotedList(hs[..i + 1])
  {
    var q := Quote(hs[i]);
    QuotedListSnoc(hs[..i], hs[i]);
    assert hs[..i + 1] == hs[..i] + [hs[i]];
    if i == 0 {
      assert QuotedList(hs[..i + 1]) == q;
    } else {
      var before := QuotedList(hs[..i]);
      assert QuotedList(hs[..i + 1]) == before + [','] + q;
      assert ['{'] + before + [','] + q == ['{'] + (before + [','] + q);
    }
  }

  /** FormatHashedChunks, with its loop: a quoted hash per element, then a comma
      unless this was the last one (`break`), then the closing brace. */
  method FormatHashedChunks(hashedChunks: seq<string>) returns (hashes: string)
    ensures hashes == ArrayLiteral(hashedChunks)
  {
    hashes := ['{'];
    var i := 0;
    while i < |hashedChunks|
      invariant 0 <= i <= |hashedChunks|
      invariant hashedChunks != [] ==> i < |hashedChunks|
      invariant hashes == ['{'] + QuotedList(hashedChunks[..i]) + (if i == 0 then [] else [','])
    {
      FormatStep(hashedChunks, i);
      hashes := hashes + Quote(hashedChunks[i]);
      if i == |hashedChunks| - 1 {
        assert hashedChunks[..i + 1] == hashedChunks;
        break;
      }
      hashes := hashes + [','];
      i := i + 1;
    }
    hashes := hashes + ['}'];
  }

  /** Total length of the hashes themselves. */
  function SumLengths(hs: seq<string>): nat {
    if hs == [] then 0 else |hs[0]| + SumLengths(hs[1..])
  }

  /** Two braces, two quotes per hash, and one comma between neighbours. */
  lemma {:induction false} ArrayLiteralLength(hs: seq<string>)
    ensures |ArrayLiteral(hs)| == 2 + SumLengths(hs) + 2 * |hs| + (if hs == [] then 0 else |hs| - 1)
  {
    QuotedListLength(hs);
  }

  lemma {:induction false} QuotedListLength(hs: seq<string>)
    ensures |QuotedList(hs)| == SumLengths(hs) + 2 * |hs| + (if hs == [] then 0 else |hs| - 1)
  {
    if |hs| > 1 {
      QuotedListLength(hs[1..]);
    }
  }

  lemma EmptyLiteral()
    ensures ArrayLiteral([]) == "{}"
  {
  }
}
