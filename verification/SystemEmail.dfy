/** System emails: one pass over a template that replaces `{{ name }}` tokens by escaped values. */
module SystemEmail {
  import opened Wrappers
  import opened Text

  /** A template is a sequence of literal characters and tokens. */
  datatype Segment = Literal(c: char) | Token(lead: string, name: string, trail: string)

  datatype Template = Template(subject: string, htmlBody: string, required: seq<string>)

  datatype Rendered = Rendered(subject: string, htmlBody: string)

  /** Values already turned into text; `None` is Python's `None`. */
  type Context = map<string, Option<string>>

  /******* Scanning *******/

  predicate IsNameChar(c: char) {
    'a' <= c <= 'z' || 'A' <= c <= 'Z' || '0' <= c <= '9' || c == '_'
  }

  predicate IsToken(t: Segment) {
    && t.Token?
    && t.name != ""
    && (forall c <- t.lead :: IsSpace(c))
    && (forall c <- t.name :: IsNameChar(c))
    && (forall c <- t.trail :: IsSpace(c))
  }

  function PrintSegment(t: Segment): (s: string)
    ensures s != ""
  {
    match t
    case Literal(c) => [c]
    case Token(lead, name, trail) => "{{" + lead + name + trail + "}}"
  }

  function Print(segs: seq<Segment>): string {
    if segs == [] then "" else PrintSegment(segs[0]) + Print(segs[1..])
  }

  /** Where the white space from position `i` on ends. */
  function SpaceEnd(s: string, i: nat): (j: nat)
    requires i <= |s|
    ensures i <= j <= |s| && (forall k :: i <= k < j ==> IsSpace(s[k])) && (j < |s| ==> !IsSpace(s[j]))
    decreases |s| - i
  {
    if i < |s| && IsSpace(s[i]) then SpaceEnd(s, i + 1) else i
  }

  /** Where the name from position `i` on ends. */
  function NameEnd(s: string, i: nat): (j: nat)
    requires i <= |s|
    ensures i <= j <= |s| && (forall k :: i <= k < j ==> IsNameChar(s[k])) && (j < |s| ==> !IsNameChar(s[j]))
    decreases |s| - i
  {
    if i < |s| && IsNameChar(s[i]) then NameEnd(s, i + 1) else i
  }

  /** The match of the token expression at the start of `s`, as a greedy matcher finds it. */
  function MatchAt(s: string): (m: Option<Segment>)
    ensures m.Some? ==> IsToken(m.value) && PrintSegment(m.value) <= s
  {
    if |s| < 2 || s[0] != '{' || s[1] != '{' then None
    else
      var a := SpaceEnd(s, 2);
      var b := NameEnd(s, a);
      var c := SpaceEnd(s, b);
      if a < b && c + 2 <= |s| && s[c] == '}' && s[c + 1] == '}' then
        SlicesJoin(s, a, b, c);
        Some(Token(s[2..a], s[a..b], s[b..c]))
      else None
  }

  lemma SlicesJoin(s: string, a: nat, b: nat, c: nat)
    requires 2 <= a <= b <= c && c + 2 <= |s|
    requires s[0] == s[1] == '{' && s[c] == s[c + 1] == '}'
    ensures PrintSegment(Token(s[2..a], s[a..b], s[b..c])) <= s
  {
    var printed := "{{" + s[2..a] + s[a..b] + s[b..c] + "}}";
    assert |printed| == c + 2;
    assert forall k :: 0 <= k < c + 2 ==> printed[k] == s[k];
  }

  /** A greedy match is decided by where the three character classes end. */
  lemma MatchIs(s: string, a: nat, b: nat, c: nat)
    requires 2 <= a < b <= c && c + 2 <= |s|
    requires s[0] == s[1] == '{' && s[c] == s[c + 1] == '}'
    requires (forall k :: 2 <= k < a ==> IsSpace(s[k])) && !IsSpace(s[a])
    requires (forall k :: a <= k < b ==> IsNameChar(s[k])) && !IsNameChar(s[b])
    requires (forall k :: b <= k < c ==> IsSpace(s[k]))
    ensures MatchAt(s) == Some(Token(s[2..a], s[a..b], s[b..c]))
  {
    assert SpaceEnd(s, 2) == a;
    assert NameEnd(s, a) == b;
    assert SpaceEnd(s, b) == c;
  }

  /** A string starts with at most one token, and the matcher finds it. */
  lemma MatchFindsTheToken(t: Segment, s: string)
    requires IsToken(t) && PrintSegment(t) <= s
    ensures MatchAt(s) == Some(t)
  {
    var a, b := 2 + |t.lead|, 2 + |t.lead| + |t.name|;
    var c := b + |t.trail|;
    var printed := PrintSegment(t);
    assert forall k :: 0 <= k < |printed| ==> s[k] == printed[k];
    assert forall k :: 2 <= k < a ==> s[k] == t.lead[k - 2];
    assert forall k :: a <= k < b ==> s[k] == t.name[k - a];
    assert forall k :: b <= k < c ==> s[k] == t.trail[k - b];
    assert s[2..a] == t.lead && s[a..b] == t.name && s[b..c] == t.trail;
    assert s[a] == t.name[0] && IsNameChar(t.name[0]);
    assert s[b] == '}' || (s[b] == t.trail[0] && IsSpace(t.trail[0]));
    MatchIs(s, a, b, c);
  }

  /** The segments a left-to-right scan cuts a template into. */
  function Scan(s: string): seq<Segment>
    decreases |s|
  {
    if s == "" then []
    else
      match MatchAt(s)
      case Some(t) => [t] + Scan(s[|PrintSegment(t)|..])
      case None => [Literal(s[0])] + Scan(s[1..])
  }

  ghost predicate StartsToken(s: string) {
    exists t :: IsToken(t) && PrintSegment(t) <= s
  }

  /** The segment sequences a scan can produce: real tokens, and no literal where a token starts. */
  ghost predicate Canonical(segs: seq<Segment>) {
    segs == [] ||
    ((if segs[0].Token? then IsToken(segs[0]) else !StartsToken(Print(segs))) && Canonical(segs[1..]))
  }

  lemma {:induction false} PrintOfScan(s: string)
    ensures Print(Scan(s)) == s
    decreases |s|
  {
    if s != "" {
      var t := MatchAt(s);
      PrintOfScan(if t.Some? then s[|PrintSegment(t.value)|..] else s[1..]);
      assert Scan(s)[1..] == if t.Some? then Scan(s[|PrintSegment(t.value)|..]) else Scan(s[1..]);
    }
  }

  lemma {:induction false} ScanIsCanonical(s: string)
    ensures Canonical(Scan(s))
    decreases |s|
  {
    if s != "" {
      var t := MatchAt(s);
      var rest := if t.Some? then s[|PrintSegment(t.value)|..] else s[1..];
      ScanIsCanonical(rest);
      assert Scan(s)[1..] == Scan(rest);
      if t == None {
        PrintOfScan(s);
        if StartsToken(s) {
          var u :| IsToken(u) && PrintSegment(u) <= s;
          MatchFindsTheToken(u, s);
        }
      }
    }
  }

  lemma {:induction false} CanonicalIsScanned(segs: seq<Segment>)
    requires Canonical(segs)
    ensures Scan(Print(segs)) == segs
  {
    if segs != [] {
      CanonicalIsScanned(segs[1..]);
      var s := Print(segs);
      assert s[|PrintSegment(segs[0])|..] == Print(segs[1..]);
      if segs[0].Token? {
        MatchFindsTheToken(segs[0], s);
      } else {
        assert MatchAt(s).Some? ==> StartsToken(s);
      }
    }
  }

  /** Scanning inverts printing exactly on the canonical segment sequences. */
  lemma ScanOfPrint(segs: seq<Segment>)
    ensures Scan(Print(segs)) == segs <==> Canonical(segs)
  {
    if Canonical(segs) { CanonicalIsScanned(segs); }
    ScanIsCanonical(Print(segs));
  }

  /******* Escaping *******/

  function ReplaceAll(s: string, c: char, reference: string): string {
    if s == "" then "" else (if s[0] == c then reference else [s[0]]) + ReplaceAll(s[1..], c, reference)
  }

  /** The character references of the five special characters. */
  datatype References = References(amp: string, lt: string, gt: string, quot: string, apos: string)

  const HTML := References("&amp;", "&lt;", "&gt;", "&quot;", "&#x27;")

  function Passes(s: string, refs: References): string {
    var amp := ReplaceAll(s, '&', refs.amp);
    var lt := ReplaceAll(amp, '<', refs.lt);
    var gt := ReplaceAll(lt, '>', refs.gt);
    var quot := ReplaceAll(gt, '"', refs.quot);
    ReplaceAll(quot, '\'', refs.apos)
  }

  /** `html.escape(s, quote=True)`: five replacements, the ampersand first. */
  function Escape(s: string): string {
    Passes(s, HTML)
  }

  function EscapeChar(c: char, refs: References): string {
    if c == '&' then refs.amp
    else if c == '<' then refs.lt
    else if c == '>' then refs.gt
    else if c == '"' then refs.quot
    else if c == '\'' then refs.apos
    else [c]
  }

  function EscapeEach(s: string, refs: References): string {
    if s == "" then "" else EscapeChar(s[0], refs) + EscapeEach(s[1..], refs)
  }

  /** What a browser reads back from the five references. */
  function Unescape(s: string): string
    decreases |s|
  {
    if s == "" then ""
    else if "&amp;" <= s then "&" + Unescape(s[5..])
    else if "&lt;" <= s then "<" + Unescape(s[4..])
    else if "&gt;" <= s then ">" + Unescape(s[4..])
    else if "&quot;" <= s then "\"" + Unescape(s[6..])
    else if "&#x27;" <= s then "'" + Unescape(s[6..])
    else [s[0]] + Unescape(s[1..])
  }

  lemma Associate(a: string, b: string, c: string)
    ensures a + (b + c) == (a + b) + c
  {}

  lemma {:induction false} ReplaceAllConcat(a: string, b: string, c: char, reference: string)
    ensures ReplaceAll(a + b, c, reference) == ReplaceAll(a, c, reference) + ReplaceAll(b, c, reference)
  {
    var ab := a + b;
    if a == "" {
      assert ab == b;
    } else {
      assert ab[1..] == a[1..] + b && ab[0] == a[0];
      ReplaceAllConcat(a[1..], b, c, reference);
      Associate(if a[0] == c then reference else [a[0]], ReplaceAll(a[1..], c, reference), ReplaceAll(b, c, reference));
    }
  }

  lemma {:induction false} ReplaceAllAbsent(s: string, c: char, reference: string)
    requires c !in s
    ensures ReplaceAll(s, c, reference) == s
  {
    if s != "" { ReplaceAllAbsent(s[1..], c, reference); }
  }

  lemma PassesConcat(a: string, b: string, refs: References)
    ensures Passes(a + b, refs) == Passes(a, refs) + Passes(b, refs)
  {
    var amp, amp' := ReplaceAll(a, '&', refs.amp), ReplaceAll(b, '&', refs.amp);
    var lt, lt' := ReplaceAll(amp, '<', refs.lt), ReplaceAll(amp', '<', refs.lt);
    var gt, gt' := ReplaceAll(lt, '>', refs.gt), ReplaceAll(lt', '>', refs.gt);
    var quot, quot' := ReplaceAll(gt, '"', refs.quot), ReplaceAll(gt', '"', refs.quot);
    ReplaceAllConcat(a, b, '&', refs.amp);
    ReplaceAllConcat(amp, amp', '<', refs.lt);
    ReplaceAllConcat(lt, lt', '>', refs.gt);
    ReplaceAllConcat(gt, gt', '"', refs.quot);
    ReplaceAllConcat(quot, quot', '\'', refs.apos);
  }

  /** The characters that delimit tags and attribute values. */
  predicate IsMarkup(c: char) {
    c == '<' || c == '>' || c == '"' || c == '\''
  }

  predicate NoMarkupIn(s: string) {
    '<' !in s && '>' !in s && '"' !in s && '\'' !in s
  }

  /** No reference holds a character that a later pass would replace. */
  predicate Clean(refs: References) {
    && NoMarkupIn(refs.amp) && NoMarkupIn(refs.lt) && NoMarkupIn(refs.gt)
    && NoMarkupIn(refs.quot) && NoMarkupIn(refs.apos)
  }

  lemma HtmlIsClean()
    ensures Clean(HTML)
  {}

  lemma ReplaceInOne(c: char, s: string, d: char, reference: string)
    requires s == [c] || d !in s
    ensures ReplaceAll(s, d, reference) == if s == [c] && c == d then reference else s
  {
    if d !in s {
      ReplaceAllAbsent(s, d, reference);
    } else {
      assert ReplaceAll(s[1..], d, reference) == "";
    }
  }

  lemma PassesOne(c: char, refs: References)
    requires Clean(refs)
    ensures Passes([c], refs) == EscapeChar(c, refs)
  {
    var amp := if c == '&' then refs.amp else [c];
    var lt := if c == '<' then refs.lt else amp;
    var gt := if c == '>' then refs.gt else lt;
    var quot := if c == '"' then refs.quot else gt;
    ReplaceInOne(c, [c], '&', refs.amp);
    ReplaceInOne(c, amp, '<', refs.lt);
    ReplaceInOne(c, lt, '>', refs.gt);
    ReplaceInOne(c, gt, '"', refs.quot);
    ReplaceInOne(c, quot, '\'', refs.apos);
  }

  lemma {:induction false} PassesAreCharacterwise(s: string, refs: References)
    requires Clean(refs)
    ensures Passes(s, refs) == EscapeEach(s, refs)
  {
    if s != "" {
      PassesAreCharacterwise(s[1..], refs);
      assert s == [s[0]] + s[1..];
      PassesConcat([s[0]], s[1..], refs);
      PassesOne(s[0], refs);
    }
  }

  /** Five passes over the whole text come to one reference per character: no pass escapes the output of an
      earlier one. */
  lemma EscapeIsCharacterwise(s: string)
    ensures Escape(s) == EscapeEach(s, HTML)
  {
    HtmlIsClean();
    PassesAreCharacterwise(s, HTML);
  }

  /** Every value is read back from its escaped text. */
  lemma {:induction false} EscapeRoundTrip(s: string)
    ensures Unescape(Escape(s)) == s
  {
    EscapeIsCharacterwise(s);
    if s != "" {
      EscapeRoundTrip(s[1..]);
      EscapeIsCharacterwise(s[1..]);
      UnescapeOne(s[0], EscapeEach(s[1..], HTML));
    }
  }

  lemma UnescapeAmp(rest: string)
    ensures Unescape("&amp;" + rest) == "&" + Unescape(rest)
  {
    assert ("&amp;" + rest)[5..] == rest;
  }

  lemma UnescapeAngle(c: char, rest: string)
    requires c == '<' || c == '>'
    ensures Unescape(EscapeChar(c, HTML) + rest) == [c] + Unescape(rest)
  {
    var s := EscapeChar(c, HTML) + rest;
    assert s[4..] == rest && s[1] == if c == '<' then 'l' else 'g';
  }

  lemma UnescapeQuote(c: char, rest: string)
    requires c == '"' || c == '\''
    ensures Unescape(EscapeChar(c, HTML) + rest) == [c] + Unescape(rest)
  {
    var s := EscapeChar(c, HTML) + rest;
    assert s[6..] == rest && s[1] == if c == '"' then 'q' else '#';
  }

  lemma UnescapeOne(c: char, rest: string)
    ensures Unescape(EscapeChar(c, HTML) + rest) == [c] + Unescape(rest)
  {
    if c == '&' {
      UnescapeAmp(rest);
    } else if c == '<' || c == '>' {
      UnescapeAngle(c, rest);
    } else if c == '"' || c == '\'' {
      UnescapeQuote(c, rest);
    } else {
      assert ([c] + rest)[1..] == rest && ([c] + rest)[0] == c;
    }
  }

  /******* Rendering *******/

  function Value(ctx: Context, name: string): string {
    if name in ctx && ctx[name].Some? then ctx[name].value else ""
  }

  /** What a token is replaced by: the closure `replace`. */
  function Replacement(ctx: Context, escapeHtml: bool): string -> string {
    (name: string) => if escapeHtml then Escape(Value(ctx, name)) else Value(ctx, name)
  }

  /** The leftmost match in a string, with what comes before and after it. */
  datatype Found = Nothing | Found(before: string, token: Segment, after: string)

  /** A search result moved one character to the right. */
  function Shift(c: char, f: Found): Found {
    match f
    case Nothing => Nothing
    case Found(before, token, after) => Found([c] + before, token, after)
  }

  /** `re.search`. */
  function Search(s: string): (f: Found)
    ensures f.Found? ==> IsToken(f.token) && |f.after| < |s|
  {
    if s == "" then Nothing
    else
      match MatchAt(s)
      case Some(t) => Found("", t, s[|PrintSegment(t)|..])
      case None =>
        Shift(s[0], Search(s[1..]))
  }

  /** `re.sub`: copy up to the leftmost match, replace it, go on after it. */
  function Sub(s: string, replace: string -> string): string
    decreases |s|
  {
    match Search(s)
    case Nothing => s
    case Found(before, token, after) => before + replace(token.name) + Sub(after, replace)
  }

  /** A search cuts the string at the token it finds. */
  lemma {:induction false} SearchSplits(s: string)
    requires Search(s).Found?
    ensures var f := Search(s); s == f.before + PrintSegment(f.token) + f.after
  {
    if MatchAt(s) == None {
      SearchSplits(s[1..]);
      var f := Search(s[1..]);
      assert s == [s[0]] + s[1..];
      Reassociate([s[0]], f.before, PrintSegment(f.token), f.after);
    }
  }

  lemma Reassociate(a: string, b: string, c: string, d: string)
    ensures a + (b + c + d) == (a + b) + c + d
  {
    Associate(a, b + c, d);
    Associate(a, b, c);
  }

  /** The match found is the leftmost one. */
  lemma {:induction false} SearchIsLeftmost(s: string, k: nat)
    requires k < |s|
    requires match Search(s) case Nothing => true case Found(before, _, _) => k < |before|
    ensures !StartsToken(s[k..])
  {
    if k == 0 {
      assert s[0..] == s;
      if StartsToken(s) {
        var t :| IsToken(t) && PrintSegment(t) <= s;
        MatchFindsTheToken(t, s);
      }
    } else {
      SearchIsLeftmost(s[1..], k - 1);
      assert s[1..][k - 1..] == s[k..];
    }
  }

  /** ASCII letters, digits and the underscore, by code point. */
  predicate IsAsciiWord(c: char) {
    48 <= c as int <= 57 || 65 <= c as int <= 90 || c as int == 95 || 97 <= c as int <= 122
  }

  /** Double braces around white space, other characters from `a` to `b`, and white space, without braces inside. */
  ghost predicate Braced(s: string, a: nat, b: nat) {
    && 2 <= a <= b && b + 2 <= |s|
    && s[0] == s[1] == '{' && s[|s| - 2] == s[|s| - 1] == '}'
    && (forall k :: 2 <= k < |s| - 2 ==> s[k] != '{' && s[k] != '}')
    && (forall k :: 2 <= k < a || b <= k < |s| - 2 ==> IsSpace(s[k]))
    && (forall k :: a <= k < b ==> !IsSpace(s[k]))
  }

  lemma {:induction false} NothingOpens(s: string)
    requires forall k :: 0 <= k < |s| - 1 ==> !(s[k] == '{' && s[k + 1] == '{')
    ensures Search(s) == Nothing
  {
    if s != "" {
      forall k | 0 <= k < |s| - 2 ensures !(s[1..][k] == '{' && s[1..][k + 1] == '{') {
        assert s[1..][k] == s[k + 1] && s[1..][k + 1] == s[k + 2];
      }
      NothingOpens(s[1..]);
    }
  }

  lemma {:induction false} SpaceEndIs(s: string, i: nat, j: nat)
    requires i <= j < |s| && !IsSpace(s[j]) && forall k :: i <= k < j ==> IsSpace(s[k])
    ensures SpaceEnd(s, i) == j
    decreases j - i
  {
    if i < j { SpaceEndIs(s, i + 1, j); }
  }

  lemma OtherwiseNoMatch(s: string, a: nat, b: nat)
    requires Braced(s, a, b) && !(a < b && forall k :: a <= k < b ==> IsAsciiWord(s[k]))
    ensures MatchAt(s) == None
  {
    if a == b {
      SpaceEndIs(s, 2, |s| - 2);
    } else {
      SpaceEndIs(s, 2, a);
      assert NameEnd(s, a) < b;
    }
  }

  /** What is between double braces, white space aside, is a token exactly if it is a name of ASCII letters, digits and
      underscores; anything else stays in the text. */
  lemma TokenIsReplacedIff(s: string, a: nat, b: nat, replace: string -> string)
    requires Braced(s, a, b)
    ensures Sub(s, replace) == if a < b && forall k :: a <= k < b ==> IsAsciiWord(s[k]) then replace(s[a..b]) else s
  {
    if a < b && forall k :: a <= k < b ==> IsAsciiWord(s[k]) {
      MatchIs(s, a, b, |s| - 2);
      SubReplaces(s, Token(s[2..a], s[a..b], s[b..|s| - 2]), "", replace);
      assert Sub("", replace) == "";
    } else {
      OtherwiseNoMatch(s, a, b);
      assert forall k :: 0 <= k < |s| - 1 ==> s[1..][k] == s[k + 1];
      NothingOpens(s[1..]);
    }
  }

  /** `_render`. */
  function Render(template: string, ctx: Context, escapeHtml: bool): string {
    Strip(Sub(template, Replacement(ctx, escapeHtml)))
  }

  function Piece(t: Segment, replace: string -> string): string {
    match t
    case Literal(c) => [c]
    case Token(_, name, _) => replace(name)
  }

  /** What the segments of a template render to. */
  function Substitute(segs: seq<Segment>, replace: string -> string): string {
    if segs == [] then "" else Piece(segs[0], replace) + Substitute(segs[1..], replace)
  }

  lemma SubSkips(s: string, replace: string -> string)
    requires s != "" && Search(s) == Shift(s[0], Search(s[1..]))
    ensures Sub(s, replace) == [s[0]] + Sub(s[1..], replace)
  {
    var f := Search(s[1..]);
    if f.Found? {
      Reassociate([s[0]], f.before, replace(f.token.name), Sub(f.after, replace));
    } else {
      assert s == [s[0]] + s[1..];
    }
  }

  lemma SubstituteCons(t: Segment, rest: seq<Segment>, replace: string -> string)
    ensures Substitute([t] + rest, replace) == Piece(t, replace) + Substitute(rest, replace)
  {
    assert ([t] + rest)[1..] == rest;
  }

  lemma SubReplaces(s: string, t: Segment, after: string, replace: string -> string)
    requires Search(s) == Found("", t, after)
    ensures Sub(s, replace) == replace(t.name) + Sub(after, replace)
  {
    var value := replace(t.name);
    assert "" + value == value;
  }

  /** Searching and replacing amounts to substituting segment by segment. */
  lemma {:induction false} SubIsSegmentwise(s: string, replace: string -> string)
    ensures Sub(s, replace) == Substitute(Scan(s), replace)
    decreases |s|
  {
    if s != "" {
      var m := MatchAt(s);
      var t := if m.Some? then m.value else Literal(s[0]);
      var rest := if m.Some? then s[|PrintSegment(t)|..] else s[1..];
      assert Scan(s) == [t] + Scan(rest);
      SubIsSegmentwise(rest, replace);
      SubstituteCons(t, Scan(rest), replace);
      if m.Some? { SubReplaces(s, t, rest, replace); } else { SubSkips(s, replace); }
    }
  }

  lemma {:induction false} SubstituteConcat(a: seq<Segment>, b: seq<Segment>, replace: string -> string)
    ensures Substitute(a + b, replace) == Substitute(a, replace) + Substitute(b, replace)
  {
    var ab := a + b;
    if a == [] {
      assert ab == b;
    } else {
      assert ab[1..] == a[1..] + b && ab[0] == a[0];
      SubstituteConcat(a[1..], b, replace);
      Associate(Piece(a[0], replace), Substitute(a[1..], replace), Substitute(b, replace));
    }
  }

  lemma SubstituteMiddle(before: seq<Segment>, t: Segment, after: seq<Segment>, replace: string -> string)
    requires t.Token?
    ensures Substitute(before + [t] + after, replace) ==
            Substitute(before, replace) + replace(t.name) + Substitute(after, replace)
  {
    SubstituteConcat(before + [t], after, replace);
    SubstituteConcat(before, [t], replace);
    assert Substitute([t][1..], replace) == "";
  }

  /** One pass: a value lands in the output as it is, whatever it contains, and what stands before and after
      its token is rendered as if the value were not there. */
  lemma ValuesAreNotRescanned(before: seq<Segment>, t: Segment, after: seq<Segment>, ctx: Context, escapeHtml: bool)
    requires Canonical(before + [t] + after) && t.Token?
    ensures var replace := Replacement(ctx, escapeHtml);
            var value := if t.name in ctx && ctx[t.name] != None then ctx[t.name].value else "";
            Render(Print(before + [t] + after), ctx, escapeHtml) ==
            Strip(Substitute(before, replace) + (if escapeHtml then Escape(value) else value)
                  + Substitute(after, replace))
  {
    var segs, replace := before + [t] + after, Replacement(ctx, escapeHtml);
    ScanOfPrint(segs);
    SubIsSegmentwise(Print(segs), replace);
    SubstituteMiddle(before, t, after, replace);
  }

  /******* Markup *******/

  /** The markup characters of `s`, in order. */
  function Markup(s: string): string {
    if s == "" then "" else (if IsMarkup(s[0]) then [s[0]] else "") + Markup(s[1..])
  }

  lemma {:induction false} MarkupConcat(a: string, b: string)
    ensures Markup(a + b) == Markup(a) + Markup(b)
  {
    var ab := a + b;
    if a == "" {
      assert ab == b;
    } else {
      assert ab[1..] == a[1..] + b && ab[0] == a[0];
      MarkupConcat(a[1..], b);
      Associate(if IsMarkup(a[0]) then [a[0]] else "", Markup(a[1..]), Markup(b));
    }
  }

  lemma {:induction false} NoMarkup(s: string)
    requires NoMarkupIn(s)
    ensures Markup(s) == ""
  {
    if s != "" { NoMarkup(s[1..]); }
  }

  lemma {:induction false} EscapedHasNoMarkup(s: string, refs: References)
    requires Clean(refs)
    ensures NoMarkupIn(EscapeEach(s, refs))
  {
    if s != "" {
      EscapedHasNoMarkup(s[1..], refs);
      assert NoMarkupIn(EscapeChar(s[0], refs));
    }
  }

  lemma {:induction false} TrimLeftKeepsMarkup(s: string)
    ensures Markup(TrimLeft(s)) == Markup(s)
  {
    if s != "" && IsSpace(s[0]) { TrimLeftKeepsMarkup(s[1..]); }
  }

  lemma {:induction false} TrimRightKeepsMarkup(s: string)
    ensures Markup(TrimRight(s)) == Markup(s)
  {
    if s != "" && IsSpace(s[|s| - 1]) {
      var front, last := s[..|s| - 1], s[|s| - 1];
      TrimRightKeepsMarkup(front);
      assert s == front + [last];
      MarkupConcat(front, [last]);
      NoMarkup([last]);
    }
  }

  lemma TokenHasNoMarkup(t: Segment)
    requires IsToken(t)
    ensures Markup(PrintSegment(t)) == ""
  {
    NoMarkup(PrintSegment(t));
  }

  lemma EscapedValueHasNoMarkup(s: string)
    ensures Markup(Escape(s)) == ""
  {
    HtmlIsClean();
    var refs := HTML;
    PassesAreCharacterwise(s, refs);
    EscapedHasNoMarkup(s, refs);
    NoMarkup(Escape(s));
  }

  lemma ReplacementHasNoMarkup(ctx: Context, name: string)
    ensures Markup(Replacement(ctx, true)(name)) == ""
  {
    EscapedValueHasNoMarkup(Value(ctx, name));
  }

  lemma {:induction false} SubstitutionKeepsMarkup(segs: seq<Segment>, ctx: Context)
    requires forall t <- segs :: t.Token? ==> IsToken(t)
    ensures Markup(Substitute(segs, Replacement(ctx, true))) == Markup(Print(segs))
  {
    if segs != [] {
      var rest := Substitute(segs[1..], Replacement(ctx, true));
      SubstitutionKeepsMarkup(segs[1..], ctx);
      MarkupConcat(PrintSegment(segs[0]), Print(segs[1..]));
      if segs[0].Token? {
        ReplacementHasNoMarkup(ctx, segs[0].name);
        TokenHasNoMarkup(segs[0]);
        MarkupConcat(Replacement(ctx, true)(segs[0].name), rest);
      } else {
        MarkupConcat([segs[0].c], rest);
      }
    }
  }

  lemma {:induction false} CanonicalTokens(segs: seq<Segment>)
    requires Canonical(segs)
    ensures forall t <- segs :: t.Token? ==> IsToken(t)
  {
    if segs != [] { CanonicalTokens(segs[1..]); }
  }

  /** No context can add, remove or move a markup character: the rendered HTML has exactly the template's. */
  lemma MarkupIsTheTemplates(template: string, ctx: Context)
    ensures Markup(Render(template, ctx, true)) == Markup(template)
  {
    var out := Sub(template, Replacement(ctx, true));
    TrimLeftKeepsMarkup(out);
    TrimRightKeepsMarkup(TrimLeft(out));
    SubIsSegmentwise(template, Replacement(ctx, true));
    ScanIsCanonical(template);
    CanonicalTokens(Scan(template));
    SubstitutionKeepsMarkup(Scan(template), ctx);
    PrintOfScan(template);
  }

  /******* The whole email *******/

  predicate Absent(ctx: Context, name: string) {
    name !in ctx || ctx[name] == None
  }

  /** The required variables the context lacks, in the template's order. */
  function Missing(required: seq<string>, ctx: Context): seq<string> {
    if required == [] then []
    else (if Absent(ctx, required[0]) then [required[0]] else []) + Missing(required[1..], ctx)
  }

  function RenderSystemEmail(template: Template, ctx: Context): Result<Rendered, seq<string>> {
    var missing := Missing(template.required, ctx);
    if missing != [] then Failure(missing)
    else Success(Rendered(Render(template.subject, ctx, false), Render(template.htmlBody, ctx, true)))
  }

  lemma {:induction false} MissingAreTheAbsent(required: seq<string>, ctx: Context, name: string)
    ensures name in Missing(required, ctx) <==> name in required && Absent(ctx, name)
  {
    if required != [] { MissingAreTheAbsent(required[1..], ctx, name); }
  }

  /** The names come in the order of the template. */
  lemma {:induction false} MissingKeepsOrder(a: seq<string>, name: string, ctx: Context)
    ensures Missing(a + [name], ctx) == Missing(a, ctx) + if name in ctx && ctx[name] != None then [] else [name]
  {
    if a == [] {
      assert [] + [name] == [name] && [name][1..] == [];
    } else {
      assert (a + [name])[1..] == a[1..] + [name];
      MissingKeepsOrder(a[1..], name, ctx);
    }
  }

  lemma EscapedIsEmptyIff(s: string)
    ensures Escape(s) == "" <==> s == ""
  {
    EscapeIsCharacterwise(s);
    if s != "" { assert EscapeChar(s[0], HTML) != ""; }
  }

  /** An email is rendered exactly if no required variable is absent or None; otherwise the error names exactly those
      that are. */
  lemma RenderedIff(template: Template, ctx: Context)
    ensures var r := RenderSystemEmail(template, ctx);
            && (r.Success? <==> forall n <- template.required :: n in ctx && ctx[n] != None)
            && (r.Failure? ==> forall n :: n in r.error <==> n in template.required && !(n in ctx && ctx[n] != None))
  {
    var missing := Missing(template.required, ctx);
    forall n ensures n in missing <==> n in template.required && Absent(ctx, n) {
      MissingAreTheAbsent(template.required, ctx, n);
    }
    assert missing != [] ==> missing[0] in missing;
  }

  /** In an email that is rendered, a token of a required variable renders to nothing exactly if its value is the empty
      text; emptiness is no error. */
  lemma RequiredTokenIsBlankIff(template: Template, ctx: Context, t: Segment, escapeHtml: bool)
    requires RenderSystemEmail(template, ctx).Success?
    requires t.Token? && t.name in template.required
    ensures Piece(t, Replacement(ctx, escapeHtml)) == "" <==> t.name in ctx && ctx[t.name] == Some("")
  {
    RenderedIff(template, ctx);
    EscapedIsEmptyIff(Value(ctx, t.name));
  }

  lemma SubOfToken(t: Segment, replace: string -> string)
    requires IsToken(t)
    ensures Sub(PrintSegment(t), replace) == replace(t.name)
  {
    var s := PrintSegment(t);
    MatchFindsTheToken(t, s);
    assert s[|s|..] == "";
    SubReplaces(s, t, "", replace);
    assert Sub("", replace) == "";
  }

  lemma RenderOfToken(t: Segment, ctx: Context)
    requires IsToken(t)
    ensures Render(PrintSegment(t), ctx, false) == Strip(Value(ctx, t.name))
  {
    SubOfToken(t, Replacement(ctx, false));
  }

  /** A rendered email: its HTML has the template's markup and no other, while a subject that is a token is the
      value itself, not escaped. */
  lemma HtmlIsEscapedSubjectIsNot(template: Template, ctx: Context, t: Segment)
    requires RenderSystemEmail(template, ctx).Success?
    requires IsToken(t) && template.subject == PrintSegment(t)
    ensures Markup(RenderSystemEmail(template, ctx).value.htmlBody) == Markup(template.htmlBody)
    ensures RenderSystemEmail(template, ctx).value.subject ==
            Strip(if t.name in ctx && ctx[t.name] != None then ctx[t.name].value else "")
  {
    MarkupIsTheTemplates(template.htmlBody, ctx);
    RenderOfToken(t, ctx);
  }
}
