/**
  authcomp/util/util.go: the two input validators used when a user registers,
  logs in, edits a profile or asks for a password reset.

  IsValidEmail is the anchored match of `^[\w-\.]+@([\w-]+\.)+[\w-]{2,4}$`
  under Go's RE2 with Perl flags, where `\w` is `[0-9A-Za-z_]` and both `-`
  and `\.` in a class are literal characters. It is modelled as the finite
  automaton that recognises that language, and proved equal to EmailShape, a
  reading of the pattern as local part, '@' and dot-separated domain labels.
 */
module AuthUtil {
  import opened GoStrings

  // ---------------------------------------------------------------- gender

  /** `c` is the lower-case letter `w` or its upper-case form. */
  predicate SameLetter(c: char, w: char)
    requires 'a' <= w <= 'z'
  {
    c == w || c as int == w as int - 32
  }

  /** `g` spells the lower-case word `w` in any mix of cases. */
  predicate SpellsIgnoringCase(g: string, w: string)
    requires forall i :: 0 <= i < |w| ==> 'a' <= w[i] <= 'z'
  {
    |g| == |w| && forall i :: 0 <= i < |g| ==> SameLetter(g[i], w[i])
  }

  lemma {:induction false} LowerEqualsWord(g: string, w: string)
    requires forall i :: 0 <= i < |w| ==> 'a' <= w[i] <= 'z'
    ensures ToLower(g) == w <==> SpellsIgnoringCase(g, w)
  {
    if SpellsIgnoringCase(g, w) {
      assert forall i :: 0 <= i < |g| ==> ToLower(g)[i] == w[i];
    }
    if ToLower(g) == w {
      forall i | 0 <= i < |g| ensures SameLetter(g[i], w[i]) {
        assert LowerChar(g[i]) == w[i];
      }
    }
  }

  /** IsValidGender: the lower-cased input is "male", "female" or "other";
      equivalently, the input spells one of them in any mix of cases. */
  function IsValidGender(gender: string): (ok: bool)
    ensures ok <==> (SpellsIgnoringCase(gender, "male")
                  || SpellsIgnoringCase(gender, "female")
                  || SpellsIgnoringCase(gender, "other"))
  {
    LowerEqualsWord(gender, "male");
    LowerEqualsWord(gender, "female");
    LowerEqualsWord(gender, "other");
    var lower := ToLower(gender);
    lower == "male" || lower == "female" || lower == "other"
  }

  /** "MALE" and "Other" pass; "" and "man" do not. */
  lemma GenderExamples()
    ensures IsValidGender("MALE") && IsValidGender("Other")
    ensures !IsValidGender("") && !IsValidGender("man")
  {
    assert SpellsIgnoringCase("MALE", "male");
    assert SpellsIgnoringCase("Other", "other");
    assert !SameLetter('n', 'e');
  }

  // ----------------------------------------------------------------- email

  /** `\w`: ASCII letters, digits and '_'. */
  predicate IsWordChar(c: char) {
    'a' <= c <= 'z' || 'A' <= c <= 'Z' || '0' <= c <= '9' || c == '_'
  }

  /** `[\w-\.]`, the characters of the local part. */
  predicate IsLocalChar(c: char) {
    IsWordChar(c) || c == '-' || c == '.'
  }

  /** `[\w-]`, the characters of a domain label. */
  predicate IsLabelChar(c: char) {
    IsWordChar(c) || c == '-'
  }

  /** `[\w-\.]+` */
  predicate LocalPart(l: string) {
    |l| > 0 && forall i :: 0 <= i < |l| ==> IsLocalChar(l[i])
  }

  /** `[\w-]+` */
  predicate Label(w: string) {
    |w| > 0 && forall i :: 0 <= i < |w| ==> IsLabelChar(w[i])
  }

  /** `([\w-]+\.)+[\w-]{2,4}`: at least two labels between dots, none empty,
      the last one two to four characters long. */
  predicate DomainPart(d: string) {
    var labels := Split(d, '.');
    && |labels| >= 2
    && (forall k :: 0 <= k < |labels| ==> Label(labels[k]))
    && 2 <= |labels[|labels| - 1]| <= 4
  }

  /** What the anchored pattern accepts: a local part, '@', and a domain. */
  ghost predicate EmailShape(s: string) {
    exists at :: 0 <= at < |s| && s[at] == '@' && LocalPart(s[..at]) && DomainPart(s[at + 1..])
  }

  /** States of the automaton: before the first character, inside the local
      part, just after '@', inside a domain label (its length and the dots seen
      so far), just after a dot, and failed. */
  datatype EmailState =
    | Start
    | InLocal
    | AfterAt
    | InLabel(len: nat, dots: nat)
    | AfterDot(dots: nat)
    | Failed

  function Step(st: EmailState, c: char): EmailState {
    match st
    case Start => if IsLocalChar(c) then InLocal else Failed
    case InLocal => if IsLocalChar(c) then InLocal else if c == '@' then AfterAt else Failed
    case AfterAt => if IsLabelChar(c) then InLabel(1, 0) else Failed
    case InLabel(n, k) =>
      if IsLabelChar(c) then InLabel(n + 1, k) else if c == '.' then AfterDot(k + 1) else Failed
    case AfterDot(k) => if IsLabelChar(c) then InLabel(1, k) else Failed
    case Failed => Failed
  }

  /** The state after reading `s` from `st`, left to right. */
  function Run(st: EmailState, s: string): EmailState {
    if s == [] then st else Step(Run(st, s[..|s| - 1]), s[|s| - 1])
  }

  /** End of text (`$`) is reached inside a last label of 2 to 4 characters that
      follows at least one dot. */
  predicate Accepting(st: EmailState) {
    st.InLabel? && st.dots >= 1 && 2 <= st.len <= 4
  }

  lemma {:induction false} RunAppend(st: EmailState, a: string, b: string)
    ensures Run(st, a + b) == Run(Run(st, a), b)
    decreases |b|
  {
    if b == [] {
      assert a + b == a;
    } else {
      var b' := b[..|b| - 1];
      RunAppend(st, a, b');
      assert (a + b)[..|a + b| - 1] == a + b';
    }
  }

  lemma {:induction false} FailedStays(s: string)
    ensures Run(Failed, s) == Failed
  {
    if s != [] {
      FailedStays(s[..|s| - 1]);
    }
  }

  /** Before any '@' the automaton is at Start, inside the local part, or failed. */
  lemma {:induction false} RunLocal(l: string)
    requires forall i :: 0 <= i < |l| ==> l[i] != '@'
    ensures Run(Start, l) == (if l == [] then Start else if LocalPart(l) then InLocal else Failed)
  {
    if l != [] {
      var l' := l[..|l| - 1];
      RunLocal(l');
      if LocalPart(l) {
        assert l' == [] || LocalPart(l');
      } else if l' != [] && LocalPart(l') {
        assert !IsLocalChar(l[|l| - 1]);
      }
    }
  }

  /** The state reached after '@' from the dot-separated labels read so far. */
  function DomainState(d: string): EmailState {
    var labels := Split(d, '.');
    var last := labels[|labels| - 1];
    if d == [] then AfterAt
    else if !(forall k :: 0 <= k < |labels| - 1 ==> Label(labels[k])) then Failed
    else if !(forall i :: 0 <= i < |last| ==> IsLabelChar(last[i])) then Failed
    else if last == [] then AfterDot(|labels| - 1)
    else InLabel(|last|, |labels| - 1)
  }

  lemma {:induction false} RunDomain(d: string)
    ensures Run(AfterAt, d) == DomainState(d)
  {
    if d != [] {
      var d' := d[..|d| - 1];
      var c := d[|d| - 1];
      RunDomain(d');
      assert d == d' + [c];
      if c == '.' {
        DomainDot(d');
      } else {
        DomainChar(d', c);
      }
    }
  }

  /** A dot ends the current label: it must be a whole label. */
  lemma DomainDot(d': string)
    ensures DomainState(d' + ['.']) == Step(DomainState(d'), '.')
  {
    var d := d' + ['.'];
    assert d[..|d| - 1] == d';
    var p := Split(d', '.');
    var q := Split(d, '.');
    var n := |p|;
    assert q == p + [[]];
    if d' == [] {
      assert q == [[], []];
      assert !Label(q[0]);
    } else {
      assert forall k :: 0 <= k < n ==> q[k] == p[k];
      var last := p[n - 1];
      if DomainState(d') == AfterDot(n - 1) {
        assert !Label(q[n - 1]);
      } else if DomainState(d').InLabel? {
        assert forall k :: 0 <= k < n ==> Label(q[k]);
      } else if !(forall i :: 0 <= i < |last| ==> IsLabelChar(last[i])) {
        assert !Label(q[n - 1]);
      }
    }
  }

  /** Any other character extends the current label. */
  lemma DomainChar(d': string, c: char)
    requires c != '.'
    ensures DomainState(d' + [c]) == Step(DomainState(d'), c)
  {
    var d := d' + [c];
    assert d[..|d| - 1] == d';
    var p := Split(d', '.');
    var q := Split(d, '.');
    var n := |p|;
    assert q == p[..n - 1] + [p[n - 1] + [c]];
    var last := p[n - 1] + [c];
    if d' == [] {
      assert p == [[]];
      assert p[0] + [c] == [c];
      assert q == [[c]];
    } else {
      assert forall k :: 0 <= k < n - 1 ==> q[k] == p[k];
      var prev := p[n - 1];
      if !IsLabelChar(c) {
        assert !IsLabelChar(last[|last| - 1]);
      } else if !(forall i :: 0 <= i < |prev| ==> IsLabelChar(prev[i])) {
        var i :| 0 <= i < |prev| && !IsLabelChar(prev[i]);
        assert last[i] == prev[i];
      } else {
        assert forall i :: 0 <= i < |last| ==> IsLabelChar(last[i]);
      }
    }
  }

  /** Accepting after '@' is exactly a well-formed domain. */
  lemma DomainAccepted(d: string)
    ensures Accepting(Run(AfterAt, d)) <==> DomainPart(d)
  {
    RunDomain(d);
    var labels := Split(d, '.');
    var n := |labels|;
    if Accepting(DomainState(d)) {
      assert forall k :: 0 <= k < n ==> Label(labels[k]) by {
        forall k | 0 <= k < n ensures Label(labels[k]) {
          if k == n - 1 {
            assert labels[n - 1] != [];
          }
        }
      }
    }
  }

  /** IsValidEmail: the automaton run over the whole text ends accepting. */
  function IsValidEmail(email: string): (ok: bool)
    ensures ok <==> EmailShape(email)
  {
    EmailCorrect(email);
    Accepting(Run(Start, email))
  }

  lemma EmailCorrect(s: string)
    ensures Accepting(Run(Start, s)) <==> EmailShape(s)
  {
    var at := IndexOf(s, '@');
    if at == |s| {
      assert s[..at] == s;
      RunLocal(s);
      ShapeAt(s, at);
    } else {
      AcceptAt(s, at);
      ShapeAt(s, at);
    }
  }

  /** With `at` the first '@', the automaton accepts exactly when the parts
      before and after it are well formed. */
  lemma AcceptAt(s: string, at: nat)
    requires at < |s| && s[at] == '@'
    requires forall j :: 0 <= j < at ==> s[j] != '@'
    ensures Accepting(Run(Start, s)) <==> LocalPart(s[..at]) && DomainPart(s[at + 1..])
  {
    var l, d := s[..at], s[at + 1..];
    assert s == l + ['@'] + d;
    RunAppend(Start, l + ['@'], d);
    RunLocal(l);
    assert Run(Start, l + ['@']) == Step(Run(Start, l), '@') by {
      assert (l + ['@'])[..|l|] == l;
    }
    DomainAccepted(d);
    if !LocalPart(l) {
      FailedStays(d);
    }
  }

  /** The same split point is the only one the pattern can use: the local part
      holds no '@'. */
  lemma ShapeAt(s: string, at: nat)
    requires at <= |s|
    requires at < |s| ==> s[at] == '@'
    requires forall j :: 0 <= j < at ==> s[j] != '@'
    ensures EmailShape(s) <==> at < |s| && LocalPart(s[..at]) && DomainPart(s[at + 1..])
  {
    if EmailShape(s) {
      var a :| 0 <= a < |s| && s[a] == '@' && LocalPart(s[..a]) && DomainPart(s[a + 1..]);
      assert forall j :: 0 <= j < a ==> s[j] != '@' by {
        forall j | 0 <= j < a ensures s[j] != '@' {
          assert s[..a][j] == s[j];
        }
      }
      assert a == at;
    }
  }

  /** Worked cases: a plain address passes; a missing second label, an empty
      label, a last label outside 2..4 and a surrounding space all fail. */
  lemma EmailExamples()
    ensures IsValidEmail("a.b@c.io")
    ensures !IsValidEmail("a@b")
    ensures !IsValidEmail("a@b.c")
    ensures !IsValidEmail(" a@b.io")
  {
    assert Run(Start, "a.b@c.io") == InLabel(2, 1) by {
      assert "a.b@c.io"[..7] == "a.b@c.i";
      assert "a.b@c.io"[..7][..6] == "a.b@c.";
      assert "a.b@c.io"[..7][..6][..5] == "a.b@c";
      assert "a.b@c.io"[..7][..6][..5][..4] == "a.b@";
      assert "a.b@c.io"[..7][..6][..5][..4][..3] == "a.b";
      assert "a.b@c.io"[..7][..6][..5][..4][..3][..2] == "a.";
      assert "a.b@c.io"[..7][..6][..5][..4][..3][..2][..1] == "a";
    }
    assert Run(Start, "a@b") == InLabel(1, 0) by {
      assert "a@b"[..2] == "a@" && "a@b"[..2][..1] == "a";
    }
    assert Run(Start, "a@b.c") == InLabel(1, 1) by {
      assert "a@b.c"[..4] == "a@b.";
      assert "a@b.c"[..4][..3] == "a@b";
      assert "a@b.c"[..4][..3][..2] == "a@";
      assert "a@b.c"[..4][..3][..2][..1] == "a";
    }
    assert Run(Start, " a@b.io") == Failed by {
      RunAppend(Start, " ", "a@b.io");
      assert " " + "a@b.io" == " a@b.io";
      assert Run(Start, " ") == Failed by { assert " "[..0] == ""; }
      FailedStays("a@b.io");
    }
  }

  /** Only label characters and dots. */
  predicate DomainChars(d: string) {
    forall i :: 0 <= i < |d| ==> d[i] == '.' || IsLabelChar(d[i])
  }

  /** A well-formed domain holds only label characters and dots. */
  lemma DomainPartChars(d: string)
    requires DomainPart(d)
    ensures DomainChars(d)
  {
    var labels := Split(d, '.');
    SplitJoin(d, '.');
    JoinChars(labels);
  }

  /** Joining pieces of label characters with dots gives label characters and dots. */
  lemma {:induction false} JoinChars(parts: seq<string>)
    requires |parts| >= 1
    requires forall k :: 0 <= k < |parts| ==> Label(parts[k])
    ensures DomainChars(Join(parts, '.'))
  {
    if |parts| > 1 {
      JoinChars(parts[..|parts| - 1]);
      var last := parts[|parts| - 1];
      var a := Join(parts[..|parts| - 1], '.');
      var j := Join(parts, '.');
      assert j == a + ['.'] + last;
      forall i | 0 <= i < |j| ensures j[i] == '.' || IsLabelChar(j[i]) {
        if i < |a| {
          assert j[i] == a[i];
        } else if i == |a| {
          assert j[i] == '.';
        } else {
          assert Label(last);
          assert j[i] == last[i - |a| - 1];
        }
      }
    }
  }

  /** An accepted address has exactly one '@', a non-empty local part before
      it, and nothing but `\w`, '-', '.' and that '@' anywhere. */
  lemma ValidEmailShape(s: string)
    requires IsValidEmail(s)
    ensures IndexOf(s, '@') < |s| && LocalPart(s[..IndexOf(s, '@')])
    ensures forall j :: IndexOf(s, '@') < j < |s| ==> s[j] != '@'
    ensures forall i :: 0 <= i < |s| ==> s[i] == '@' || IsLocalChar(s[i])
  {
    var at := IndexOf(s, '@');
    ShapeAt(s, at);
    DomainPartChars(s[at + 1..]);
    CharsAround(s, at);
  }

  /** A local part, an '@' and label characters and dots after it: that '@'
      is the only one, and every character is allowed. */
  lemma CharsAround(s: string, at: nat)
    requires at < |s| && s[at] == '@'
    requires LocalPart(s[..at]) && DomainChars(s[at + 1..])
    ensures forall j :: at < j < |s| ==> s[j] != '@'
    ensures forall i :: 0 <= i < |s| ==> s[i] == '@' || IsLocalChar(s[i])
  {
    var l, d := s[..at], s[at + 1..];
    forall j | at < j < |s| ensures s[j] == d[j - at - 1] {
    }
    forall i | 0 <= i < at ensures s[i] == l[i] {
    }
  }

  /** With `at` the first '@' and a malformed domain after it, the address fails. */
  lemma RejectedDomain(s: string, at: nat)
    requires at < |s| && s[at] == '@'
    requires forall j :: 0 <= j < at ==> s[j] != '@'
    requires !DomainPart(s[at + 1..])
    ensures !IsValidEmail(s)
  {
    ShapeAt(s, at);
  }

  /** Domain labels must be non-empty: an empty first label fails. */
  lemma EmptyFirstLabel()
    ensures !IsValidEmail("a@.com")
  {
    assert NoSep("", '.') && NoSep("com", '.');
    JoinSplit(["", "com"], '.');
    assert Join(["", "com"], '.') == "a@.com"[2..];
    RejectedDomain("a@.com", 1);
  }

  /** An empty label between two dots fails. */
  lemma EmptyMiddleLabel()
    ensures !IsValidEmail("a@b..com")
  {
    var parts := ["b", "", "com"];
    assert NoSep("b", '.') && NoSep("", '.') && NoSep("com", '.');
    JoinSplit(parts, '.');
    assert parts[..2] == ["b", ""] && parts[..2][..1] == ["b"];
    assert Join(parts, '.') == "a@b..com"[2..];
    assert !Label(Split("a@b..com"[2..], '.')[1]);
    RejectedDomain("a@b..com", 1);
  }

  /** A trailing dot leaves an empty last label, which fails. */
  lemma EmptyLastLabel()
    ensures !IsValidEmail("a@b.com.")
  {
    var parts := ["b", "com", ""];
    assert NoSep("b", '.') && NoSep("", '.') && NoSep("com", '.');
    JoinSplit(parts, '.');
    assert parts[..2] == ["b", "com"] && parts[..2][..1] == ["b"];
    assert Join(parts, '.') == "a@b.com."[2..];
    RejectedDomain("a@b.com.", 1);
  }

  /** A last label of five characters fails. */
  lemma LongLastLabel()
    ensures !IsValidEmail("a@b.comxx")
  {
    var parts := ["b", "comxx"];
    assert NoSep("b", '.') && NoSep("comxx", '.');
    JoinSplit(parts, '.');
    assert parts[..1] == ["b"];
    assert Join(parts, '.') == "a@b.comxx"[2..];
    RejectedDomain("a@b.comxx", 1);
  }

  /** The local part may start, end or repeat with dots. */
  lemma LocalDotsAccepted()
    ensures IsValidEmail(".a..b.@c.io")
  {
    var s := ".a..b.@c.io";
    assert forall j :: 0 <= j < 6 ==> s[j] != '@';
    ShapeAt(s, 6);
    assert LocalPart(s[..6]);
    assert NoSep("c", '.') && NoSep("io", '.');
    JoinSplit(["c", "io"], '.');
    assert ["c", "io"][..1] == ["c"];
    assert Join(["c", "io"], '.') == s[7..];
    assert DomainPart(s[7..]);
  }
}
