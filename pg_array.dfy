/**
  The database side of FILE_METADATA.HASH_IDS: Postgres reads the text that
  FormatHashedChunks builds as a one-dimensional `text[]` literal. Blanks
  around the braces and around each element are skipped. An element is either
  double-quoted, where a backslash takes the next character literally and an
  unescaped double quote ends it, or unquoted, running up to the next ',' or
  '}' with backslash escapes and its trailing blanks dropped. An unquoted,
  unescaped NULL (in any case) is the SQL NULL element, and an empty element
  is an error.
 */
module PgArray {
  import opened Outcomes
  import opened GoStrings
  import opened MetadataUtil

  /** One element of a `text[]` value. */
  datatype Element = Null | Text(value: string)

  /** The element as `pgtype.Text`'s `String` field gives it back: NULL reads
      as the empty text. */
  function TextOf(e: Element): string {
    if e.Text? then e.value else ""
  }

  /** The elements as FetchMetadata copies them out, in order. */
  function Values(es: seq<Element>): seq<string> {
    seq(|es|, k requires 0 <= k < |es| => TextOf(es[k]))
  }

  /** A list of texts as array elements, none of them NULL. */
  function AsText(hs: seq<string>): seq<Element> {
    seq(|hs|, k requires 0 <= k < |hs| => Text(hs[k]))
  }

  /** Postgres's `array_isspace`: blank, tab, newline, carriage return,
      vertical tab and form feed. */
  predicate IsArraySpace(c: char) {
    c == ' ' || c == '\t' || c == '\n' || c == '\r' || c == '\U{000B}' || c == '\U{000C}'
  }

  /** The text after its leading blanks. */
  function SkipSpace(s: string): (r: string)
    ensures |r| <= |s| && (r == [] || !IsArraySpace(r[0]))
  {
    if s != [] && IsArraySpace(s[0]) then SkipSpace(s[1..]) else s
  }

  /** Reads a quoted element's body up to its closing quote; returns it with
      the text after that quote. */
  function ScanBody(s: string, acc: string): (r: Option<(string, string)>)
    ensures r.Some? ==> |r.value.1| < |s|
    decreases |s|
  {
    if s == [] then None
    else if s[0] == '"' then Some((acc, s[1..]))
    else if s[0] == '\\' then
      if |s| >= 2 then ScanBody(s[2..], acc + [s[1]]) else None
    else ScanBody(s[1..], acc + [s[0]])
  }

  /** Reads an unquoted element up to the ',' or '}' after it. `acc` holds the
      element so far and `pending` the unescaped blanks read since, which only
      join it when more of the element follows; `escaped` records a backslash.
      Returns the element, whether it used a backslash, and the text from the
      ',' or '}' on. A '"' or '{' inside an unquoted element is an error. */
  function ScanBare(s: string, acc: string, pending: string, escaped: bool): (r: Option<(string, bool, string)>)
    ensures r.Some? ==> |r.value.2| <= |s| && (|r.value.2| == |s| ==> r.value.0 == acc)
    decreases |s|
  {
    if s == [] then None
    else if s[0] == ',' || s[0] == '}' then Some((acc, escaped, s))
    else if s[0] == '"' || s[0] == '{' then None
    else if s[0] == '\\' then
      if |s| >= 2 then ScanBare(s[2..], acc + pending + [s[1]], [], true) else None
    else if IsArraySpace(s[0]) then ScanBare(s[1..], acc, pending + [s[0]], escaped)
    else ScanBare(s[1..], acc + pending + [s[0]], [], escaped)
  }

  /** One element with the blanks around it; returns it with the text from
      the ',' or '}' that follows. */
  function ScanElement(s: string): (r: Option<(Element, string)>)
    ensures r.Some? ==> |r.value.1| < |s|
  {
    var t := SkipSpace(s);
    if t != [] && t[0] == '"' then
      match ScanBody(t[1..], [])
      case None => None
      case Some((body, rest)) => Some((Text(body), SkipSpace(rest)))
    else
      match ScanBare(t, [], [], false)
      case None => None
      case Some((body, escaped, rest)) =>
        if body == [] then None
        else if !escaped && ToLower(body) == "null" then Some((Null, rest))
        else Some((Text(body), rest))
  }

  /** Elements separated by ',' up to the closing '}', after which only blanks
      may follow. */
  function ParseItems(s: string): Option<seq<Element>>
    decreases |s|
  {
    match ScanElement(s)
    case None => None
    case Some((e, rest)) =>
      if rest != [] && rest[0] == '}' then
        if SkipSpace(rest[1..]) == [] then Some([e]) else None
      else if rest != [] && rest[0] == ',' then
        match ParseItems(rest[1..])
        case None => None
        case Some(es) => Some([e] + es)
      else None
  }

  /** The array a literal denotes, or None where Postgres rejects the text.
      Every element takes its own characters and a ',' or '}' of the text,
      after the opening brace. */
  function ParseArray(s: string): (r: Option<seq<Element>>)
    ensures r.Some? ==> |r.value| + SumLengths(Values(r.value)) < |s|
  {
    var t := SkipSpace(s);
    if t != [] && t[0] == '{' then
      var u := SkipSpace(t[1..]);
      if u != [] && u[0] == '}' then
        if SkipSpace(u[1..]) == [] then Some([]) else None
      else
        match ParseItems(t[1..])
        case None => None
        case Some(es) => ItemsLength(t[1..]); Some(es)
    else None
  }

  /** A hash the unescaped builder cannot damage: no '"' and no '\'. */
  predicate Plain(h: string) {
    forall i :: 0 <= i < |h| ==> h[i] != '"' && h[i] != '\\'
  }

  lemma {:induction false} ScanPlain(h: string, t: string, acc: string)
    requires Plain(h)
    ensures ScanBody(h + ['"'] + t, acc) == Some((acc + h, t))
    decreases |h|
  {
    var s := h + ['"'] + t;
    if h == [] {
      assert s[0] == '"' && s[1..] == t;
      assert acc + h == acc;
    } else {
      assert s[1..] == h[1..] + ['"'] + t;
      ScanPlain(h[1..], t, acc + [h[0]]);
      assert acc + [h[0]] + h[1..] == acc + h;
    }
  }

  /** A quoted plain hash reads back as itself when a ',' or '}' follows it. */
  lemma ScanElementPlain(h: string, t: string)
    requires Plain(h)
    requires t != [] && (t[0] == ',' || t[0] == '}')
    ensures ScanElement(Quote(h) + t) == Some((Text(h), t))
  {
    var s := Quote(h) + t;
    assert s[0] == '"' && s[1..] == h + ['"'] + t;
    ScanPlain(h, t, []);
    assert [] + h == h;
  }

  /** The quoted list and the closing brace read back as the list. */
  lemma {:induction false} ItemsRoundTrip(hs: seq<string>)
    requires hs != []
    requires forall k :: 0 <= k < |hs| ==> Plain(hs[k])
    ensures ParseItems(QuotedList(hs) + ['}']) == Some(AsText(hs))
  {
    if |hs| == 1 {
      var h := hs[0];
      ScanElementPlain(h, ['}']);
      assert QuotedList(hs) + ['}'] == Quote(h) + ['}'];
      assert AsText(hs) == [Text(h)];
    } else {
      ItemsRoundTrip(hs[1..]);
      var rest := QuotedList(hs[1..]) + ['}'];
      var tail := [','] + rest;
      ScanElementPlain(hs[0], tail);
      assert QuotedList(hs) + ['}'] == Quote(hs[0]) + tail;
      assert tail[1..] == rest;
      assert AsText(hs) == [Text(hs[0])] + AsText(hs[1..]);
    }
  }

  /** Decoding the stored literal gives back the hash list, in order, whenever no
      hash holds a '"' or a '\'. */
  lemma RoundTrip(hs: seq<string>)
    requires forall k :: 0 <= k < |hs| ==> Plain(hs[k])
    ensures ParseArray(ArrayLiteral(hs)) == Some(AsText(hs))
  {
    var s := ArrayLiteral(hs);
    assert SkipSpace(s) == s;
    if hs == [] {
      assert s == "{}" && s[1..] == "}";
      assert SkipSpace(s[1..][1..]) == [];
      assert AsText(hs) == [];
      assert SkipSpace(s[1..]) == s[1..];
      assert s[1..][1..] == [];
    } else {
      ItemsRoundTrip(hs);
      QuotedListLength(hs);
      assert s[1..] == QuotedList(hs) + ['}'];
      assert s[1] == '"';
      assert SkipSpace(s[1..]) == s[1..];
    }
  }

  /** Reading texts back as FetchMetadata does gives the texts. */
  lemma ValuesAsText(hs: seq<string>)
    ensures Values(AsText(hs)) == hs
  {
  }

  // The converse of RoundTrip, by counting characters: every '"' of the
  // literal is a quote around an element or an escaped character inside one,
  // so a read-back that returns the list quoted every element; the lengths
  // then leave no room for an escape or a skipped blank, which rules out a
  // '"' or a '\' inside any element.

  /** How many '"' a text holds. */
  function Quotes(s: string): nat {
    if s == [] then 0 else (if s[0] == '"' then 1 else 0) + Quotes(s[1..])
  }

  /** The number of '"' in every text of a list. */
  function SumQuotes(hs: seq<string>): nat {
    if hs == [] then 0 else Quotes(hs[0]) + SumQuotes(hs[1..])
  }

  lemma {:induction false} QuotesAppend(a: string, b: string)
    ensures Quotes(a + b) == Quotes(a) + Quotes(b)
    decreases |a|
  {
    if a == [] {
      assert a + b == b;
    } else {
      assert (a + b)[1..] == a[1..] + b;
      QuotesAppend(a[1..], b);
    }
  }

  lemma {:induction false} NoQuotes(s: string)
    requires forall i :: 0 <= i < |s| ==> s[i] != '"'
    ensures Quotes(s) == 0
    decreases |s|
  {
    if s != [] {
      NoQuotes(s[1..]);
    }
  }

  lemma {:induction false} SkipSpaceQuotes(s: string)
    ensures Quotes(SkipSpace(s)) == Quotes(s)
    decreases |s|
  {
    if s != [] && IsArraySpace(s[0]) {
      SkipSpaceQuotes(s[1..]);
    }
  }

  /** A quoted body: one '"' closes it, and a body as long as the text it
      came from used no escape, so it holds no '"' and no '\'. */
  lemma {:induction false} ScanBodyCount(s: string, acc: string)
    requires ScanBody(s, acc).Some?
    ensures var (b, rest) := ScanBody(s, acc).value;
      && Quotes(s) + Quotes(acc) == Quotes(rest) + 1 + Quotes(b)
      && |s| + |acc| >= |rest| + 1 + |b|
      && (|s| + |acc| == |rest| + 1 + |b| && Plain(acc) ==> Plain(b))
    decreases |s|
  {
    if s[0] == '"' {
    } else if s[0] == '\\' {
      assert s[1..][1..] == s[2..];
      ScanBodyCount(s[2..], acc + [s[1]]);
      QuotesAppend(acc, [s[1]]);
    } else {
      ScanBodyCount(s[1..], acc + [s[0]]);
      QuotesAppend(acc, [s[0]]);
    }
  }

  /** An unquoted element: its '"' are escaped ones it keeps, and a body as
      long as the text it came from used no escape and dropped no blank. */
  lemma {:induction false} ScanBareCount(s: string, acc: string, pending: string, escaped: bool)
    requires forall i :: 0 <= i < |pending| ==> IsArraySpace(pending[i])
    requires ScanBare(s, acc, pending, escaped).Some?
    ensures var (b, _, rest) := ScanBare(s, acc, pending, escaped).value;
      && Quotes(s) + Quotes(acc) == Quotes(rest) + Quotes(b)
      && |s| + |acc| + |pending| >= |rest| + |b|
      && (|s| + |acc| + |pending| == |rest| + |b| && Plain(acc) ==> Plain(b))
    decreases |s|
  {
    if s[0] == ',' || s[0] == '}' {
    } else if s[0] == '\\' {
      assert s[1..][1..] == s[2..];
      NoQuotes(pending);
      QuotesAppend(acc, pending);
      QuotesAppend(acc + pending, [s[1]]);
      ScanBareCount(s[2..], acc + pending + [s[1]], [], true);
    } else if IsArraySpace(s[0]) {
      ScanBareCount(s[1..], acc, pending + [s[0]], escaped);
    } else {
      NoQuotes(pending);
      QuotesAppend(acc, pending);
      QuotesAppend(acc + pending, [s[0]]);
      ScanBareCount(s[1..], acc + pending + [s[0]], [], escaped);
    }
  }

  /** One element: `q` is 1 when it was quoted and 0 when not. */
  lemma ElementCount(s: string) returns (q: nat)
    requires ScanElement(s).Some?
    ensures var (e, rest) := ScanElement(s).value;
      && q <= 1
      && Quotes(s) == Quotes(rest) + Quotes(TextOf(e)) + 2 * q
      && |s| >= |rest| + |TextOf(e)| + 2 * q
      && (|s| == |rest| + |TextOf(e)| + 2 * q ==> Plain(TextOf(e)))
  {
    var t := SkipSpace(s);
    SkipSpaceQuotes(s);
    if t != [] && t[0] == '"' {
      var (body, rest) := ScanBody(t[1..], []).value;
      ScanBodyCount(t[1..], []);
      SkipSpaceQuotes(rest);
      q := 1;
    } else {
      var (body, escaped, rest) := ScanBare(t, [], [], false).value;
      ScanBareCount(t, [], [], false);
      if !escaped && ToLower(body) == "null" {
        forall i | 0 <= i < |body| ensures body[i] != '"' {
          assert LowerChar(body[i]) in "null";
        }
        NoQuotes(body);
      }
      q := 0;
    }
  }

  /** The element list: `q` elements were quoted, and `extra` characters went
      to escapes, skipped blanks and NULL words; with none of those, no
      element holds a '"' or a '\'. */
  lemma {:induction false} ItemsCount(s: string) returns (q: nat, extra: nat)
    requires ParseItems(s).Some?
    ensures var es := ParseItems(s).value;
      && Quotes(s) == 2 * q + SumQuotes(Values(es))
      && |s| == |es| + SumLengths(Values(es)) + 2 * q + extra
      && (extra == 0 ==> forall k :: 0 <= k < |es| ==> Plain(TextOf(es[k])))
    decreases |s|
  {
    var (e, rest) := ScanElement(s).value;
    var qe := ElementCount(s);
    if rest[0] == '}' {
      SkipSpaceQuotes(rest[1..]);
      assert Values([e]) == [TextOf(e)];
      q, extra := qe, |s| - |rest| - |TextOf(e)| - 2 * qe + |rest| - 1;
    } else {
      var es := ParseItems(rest[1..]).value;
      var q', extra' := ItemsCount(rest[1..]);
      assert Values([e] + es) == [TextOf(e)] + Values(es);
      q, extra := qe + q', |s| - |rest| - |TextOf(e)| - 2 * qe + extra';
      if extra == 0 {
        forall k | 0 <= k < |es| + 1 ensures Plain(TextOf(([e] + es)[k])) {
          if k > 0 {
            assert ([e] + es)[k] == es[k - 1];
          }
        }
      }
    }
  }

  /** The elements and their texts fit in the text they were read from. */
  lemma ItemsLength(s: string)
    requires ParseItems(s).Some?
    ensures |ParseItems(s).value| + SumLengths(Values(ParseItems(s).value)) <= |s|
  {
    var q, extra := ItemsCount(s);
  }

  /** The literal holds two quotes per hash besides the hashes' own. */
  lemma {:induction false} QuotedListQuotes(hs: seq<string>)
    ensures Quotes(QuotedList(hs)) == 2 * |hs| + SumQuotes(hs)
  {
    if hs != [] {
      var h := hs[0];
      QuotesAppend(['"'] + h, ['"']);
      QuotesAppend(['"'], h);
      if |hs| > 1 {
        QuotedListQuotes(hs[1..]);
        QuotesAppend(Quote(h), [',']);
        QuotesAppend(Quote(h) + [','], QuotedList(hs[1..]));
      }
    }
  }

  /** Without escaping, a hash holding a '"' or a '\' never comes back: the
      literal is rejected, or it reads back as a different list. */
  lemma NotPlainBreaks(hs: seq<string>)
    requires exists k :: 0 <= k < |hs| && !Plain(hs[k])
    ensures ParseArray(ArrayLiteral(hs)) == None || Values(ParseArray(ArrayLiteral(hs)).value) != hs
  {
    var s := ArrayLiteral(hs);
    var n := |hs|;
    if ParseArray(s).Some? && Values(ParseArray(s).value) == hs {
      var body := QuotedList(hs) + ['}'];
      QuotedListLength(hs);
      ArrayLiteralLength(hs);
      assert s[1..] == body && s[1] == '"';
      var es := ParseItems(body).value;
      var q, extra := ItemsCount(body);
      QuotedListQuotes(hs);
      QuotesAppend(QuotedList(hs), ['}']);
      assert false;
    }
  }

  /** The literal reads back as the hash list exactly when no hash holds a
      '"' or a '\'. */
  lemma ReadsBackIff(hs: seq<string>)
    ensures (ParseArray(ArrayLiteral(hs)).Some? && Values(ParseArray(ArrayLiteral(hs)).value) == hs)
            <==> forall k :: 0 <= k < |hs| ==> Plain(hs[k])
  {
    if forall k :: 0 <= k < |hs| ==> Plain(hs[k]) {
      RoundTrip(hs);
    } else {
      NotPlainBreaks(hs);
    }
  }

  /** No escaping: a '"' inside a hash ends its element early, and what
      follows the closing quote is neither ',' nor '}', so the text is rejected. */
  lemma QuoteInHash()
    ensures ParseArray(ArrayLiteral(["a\"b"])) == None
  {
    var l := ArrayLiteral(["a\"b"]);
    assert l == "{\"a\"b\"}";
    assert SkipSpace(l) == l;
    assert l[1..] == "\"a\"b\"}";
    assert SkipSpace(l[1..]) == l[1..];
    assert ScanBody("a\"b\"}", []) == Some(("a", "b\"}")) by {
      assert "a\"b\"}"[1..] == "\"b\"}";
      assert "\"b\"}"[1..] == "b\"}";
      assert [] + ['a'] == "a";
    }
    assert SkipSpace("b\"}") == "b\"}";
  }

  /** No escaping: a '\' inside a hash is consumed as an escape of the
      character after it. */
  lemma BackslashInHash()
    ensures ParseArray(ArrayLiteral(["a\\b"])) == Some([Text("ab")])
  {
    var l := ArrayLiteral(["a\\b"]);
    assert l == "{\"a\\b\"}";
    assert SkipSpace(l) == l;
    assert l[1..] == "\"a\\b\"}";
    assert SkipSpace(l[1..]) == l[1..];
    assert ScanBody("a\\b\"}", []) == Some(("ab", "}")) by {
      assert "a\\b\"}"[1..] == "\\b\"}";
      assert "\\b\"}"[2..] == "\"}";
      assert "\"}"[1..] == "}";
      assert [] + ['a'] == "a" && "a" + ['b'] == "ab";
      assert ScanBody("a\\b\"}", []) == ScanBody("\\b\"}", "a");
      assert "\\b\"}"[0] == '\\' && "\\b\"}"[1] == 'b';
      assert ScanBody("\\b\"}", "a") == ScanBody("\"}", "ab");
    }
    assert SkipSpace("}") == "}";
    assert "}"[1..] == [];
  }

  /** The items go on after a ','. */
  lemma ItemsNext(s: string, e: Element, rest: string)
    requires ScanElement(s) == Some((e, rest)) && rest != [] && rest[0] == ','
    requires ParseItems(rest[1..]).Some?
    ensures ParseItems(s) == Some([e] + ParseItems(rest[1..]).value)
  {
  }

  /** The items end at a final '}'. */
  lemma ItemsLast(s: string, e: Element)
    requires ScanElement(s) == Some((e, "}"))
    ensures ParseItems(s) == Some([e])
  {
    assert "}"[1..] == [];
  }

  /** A literal that opens with `{"` is read as items from the quote on. */
  lemma ArrayOfItems(l: string)
    requires |l| >= 2 && l[0] == '{' && l[1] == '"'
    ensures ParseArray(l) == ParseItems(l[1..])
  {
    assert SkipSpace(l) == l;
    assert SkipSpace(l[1..]) == l[1..];
  }

  /** No escaping: a hash holding `","` between two plain parts builds the
      literal of the two parts, which reads back as two elements. */
  lemma QuoteSplitsHash(x: string, y: string)
    requires Plain(x) && Plain(y)
    ensures ParseArray(ArrayLiteral([x + "\",\"" + y])) == Some([Text(x), Text(y)])
  {
    var h := x + "\",\"" + y;
    assert [x, y][1..] == [y];
    assert QuotedList([x, y]) == Quote(x) + [','] + Quote(y);
    assert "\",\"" == ['"', ',', '"'];
    assert Quote(h) == Quote(x) + [','] + Quote(y);
    assert ArrayLiteral([h]) == ArrayLiteral([x, y]);
    assert Plain([x, y][0]) && Plain([x, y][1]);
    RoundTrip([x, y]);
    assert AsText([x, y]) == [Text(x), Text(y)];
  }

  /** Blanks between a comma and the next quote are skipped, so a hash holding
      `", "` splits the same way. */
  lemma SpacedQuoteSplitsHash(x: string, y: string)
    requires Plain(x) && Plain(y)
    ensures ParseArray(ArrayLiteral([x + "\", \"" + y])) == Some([Text(x), Text(y)])
  {
    var h := x + "\", \"" + y;
    var tail := Quote(y) + "}";
    var more := [' '] + tail;
    var rest := [','] + more;
    var l := ArrayLiteral([h]);
    assert "\", \"" == ['"', ',', ' ', '"'];
    assert l == ['{'] + (Quote(x) + rest);
    ArrayOfItems(l);
    assert l[1..] == Quote(x) + rest;
    ScanElementPlain(x, rest);
    ScanElementPlain(y, "}");
    ItemsLast(tail, Text(y));
    assert SkipSpace(more) == tail by {
      assert more[1..] == tail;
    }
    assert ParseItems(more) == Some([Text(y)]);
    assert rest[1..] == more;
    ItemsNext(l[1..], Text(x), rest);
    assert [Text(x)] + [Text(y)] == [Text(x), Text(y)];
  }

  /** A word of ordinary characters scans whole, up to the ',' or '}' after it. */
  lemma {:induction false} ScanBareWord(w: string, t: string, acc: string, escaped: bool)
    requires forall i :: 0 <= i < |w| ==> w[i] !in ",}\"{\\" && !IsArraySpace(w[i])
    requires t != [] && (t[0] == ',' || t[0] == '}')
    ensures ScanBare(w + t, acc, [], escaped) == Some((acc + w, escaped, t))
    decreases |w|
  {
    if w == [] {
      assert w + t == t && acc + w == acc;
    } else {
      assert (w + t)[1..] == w[1..] + t;
      assert w[0] !in ",}\"{\\";
      ScanBareWord(w[1..], t, acc + [] + [w[0]], escaped);
      assert acc + [] + [w[0]] + w[1..] == acc + w;
    }
  }

  /** An unquoted, unescaped `null` before a ',' is the NULL element. */
  lemma NullWord(t: string)
    requires t != [] && t[0] == ','
    ensures ScanElement("null" + t) == Some((Null, t))
  {
    var none: string := [];
    ScanBareWord("null", t, none, false);
    assert none + "null" == "null";
    assert SkipSpace("null" + t) == "null" + t;
    assert ToLower("null") == "null";
  }

  /** An unquoted `null` between two injected quotes is the NULL element. */
  lemma NullInjected(x: string, y: string)
    requires Plain(x) && Plain(y)
    ensures ParseArray(ArrayLiteral([x + "\",null,\"" + y])) == Some([Text(x), Null, Text(y)])
  {
    var h := x + "\",null,\"" + y;
    var last := Quote(y) + "}";
    var tail := [','] + last;
    var mid := "null" + tail;
    var rest := [','] + mid;
    var l := ArrayLiteral([h]);
    assert "\",null,\"" == ['"', ',', 'n', 'u', 'l', 'l', ',', '"'];
    assert l == ['{'] + (Quote(x) + rest);
    ArrayOfItems(l);
    assert l[1..] == Quote(x) + rest;
    ScanElementPlain(x, rest);
    NullWord(tail);
    ScanElementPlain(y, "}");
    ItemsLast(last, Text(y));
    assert tail[1..] == last;
    ItemsNext(mid, Null, tail);
    assert rest[1..] == mid;
    ItemsNext(l[1..], Text(x), rest);
    assert [Text(x)] + ([Null] + [Text(y)]) == [Text(x), Null, Text(y)];
  }
}
