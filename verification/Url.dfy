/** `spring://` URLs: the parser, a state machine over characters, and the
    printer, which undo each other. */
module Urls {
  import opened Wire

  const SCHEME := "spring://"

  datatype Url = Url(route: seq<string>, geosub: string, resource: string, query: string)

  // ---------------------------------------------------------------- parsing

  /** The part of the URL that is being read. */
  datatype Part = Route | Geosub | Resource | Query

  /** The parser's variables: the parts read so far, the text since the last
      separator, and the part that this text belongs to. */
  datatype Scanner = Scanner(url: Url, text: string, part: Part)

  const START := Scanner(Url([], "", "", ""), "", Route)

  predicate Separator(c: char) {
    c == '.' || c == ':' || c == '/' || c == '?' || c == '\0'
  }

  function PushLabel(s: Scanner): Url {
    s.url.(route := s.url.route + [s.text])
  }

  /** Stores the text read when a separator ends the current part. */
  function Close(s: Scanner, query: bool, resource: bool): Url {
    match s.part
    case Route => PushLabel(s)
    case Geosub => s.url.(geosub := s.text)
    case Resource => if resource then s.url.(resource := s.text) else s.url
    case Query => if query then s.url.(query := s.text) else s.url
  }

  function Read(s: Scanner, c: char): Scanner {
    match c
    case '.' => Scanner(PushLabel(s), "", s.part)
    case ':' => Scanner(PushLabel(s), "", Geosub)
    case '/' => Scanner(Close(s, false, false), "", Resource)
    case '?' => Scanner(Close(s, false, true), "", Query)
    case '\0' => Scanner(Close(s, true, true), "", s.part)
    case _ => s.(text := s.text + [c])
  }

  function Scan(s: Scanner, text: string): Scanner
    decreases |text|
  {
    if text == "" then s else Scan(Read(s, text[0]), text[1..])
  }

  /** `None` is the exception `netspace_malformed_url`.  The parser also reads the
      NUL that ends a C++ string. */
  function Decode(text: string): Option<Url> {
    if |text| <= |SCHEME| || text[..|SCHEME|] != SCHEME then None else
    var url := Scan(START, text[|SCHEME|..] + "\0").url;
    if url.route == [] then None else Some(url)
  }

  // ---------------------------------------------------------------- printing

  /** Each label with a dot after it. */
  function Dotted(route: seq<string>): string {
    if route == [] then "" else Dotted(route[..|route| - 1]) + route[|route| - 1] + "."
  }

  function Labels(route: seq<string>): string {
    if route == [] then "" else Dotted(route[..|route| - 1]) + route[|route| - 1]
  }

  function Prefixed(mark: string, part: string): string {
    if part == "" then "" else mark + part
  }

  function Print(u: Url): string {
    SCHEME + Labels(u.route) + Prefixed(":", u.geosub) + Prefixed("/", u.resource) + Prefixed("?", u.query)
  }

  // --------------------------------------------------------------- properties

  ghost predicate Plain(text: string) {
    forall c <- text :: !Separator(c)
  }

  /** No part holds a separator. */
  ghost predicate Clean(u: Url) {
    (forall name <- u.route :: Plain(name)) && Plain(u.geosub) && Plain(u.resource) && Plain(u.query)
  }

  const BLANK := Url([""], "", "", "")

  lemma {:induction false} ScanAppend(s: Scanner, a: string, b: string)
    ensures Scan(s, a + b) == Scan(Scan(s, a), b)
    decreases |a|
  {
    if a == "" {
      assert a + b == b;
    } else {
      assert (a + b)[1..] == a[1..] + b;
      ScanAppend(Read(s, a[0]), a[1..], b);
    }
  }

  lemma ScanOne(s: Scanner, c: char)
    ensures Scan(s, [c]) == Read(s, c)
  {
    assert [c][1..] == "";
  }

  lemma {:induction false} ScanPlain(s: Scanner, text: string)
    requires Plain(text)
    ensures Scan(s, text) == s.(text := s.text + text)
    decreases |text|
  {
    if text == "" {
      assert s.text + text == s.text;
    } else {
      assert text[0] in text;
      ScanPlain(Read(s, text[0]), text[1..]);
      assert s.text + [text[0]] + text[1..] == s.text + text;
    }
  }

  /** Plain text after a separator, and then another separator. */
  lemma ScanPart(s: Scanner, text: string, c: char)
    requires Plain(text) && s.text == ""
    ensures Scan(s, text + [c]) == Read(s.(text := text), c)
  {
    ScanAppend(s, text, [c]);
    ScanPlain(s, text);
    assert "" + text == text;
    ScanOne(s.(text := text), c);
  }

  lemma {:induction false} ScanDotted(route: seq<string>)
    requires forall name <- route :: Plain(name)
    ensures Scan(START, Dotted(route)) == START.(url := START.url.(route := route))
  {
    if route != [] {
      var front, name := route[..|route| - 1], route[|route| - 1];
      var s := START.(url := START.url.(route := front));
      ScanDotted(front);
      assert Dotted(route) == Dotted(front) + (name + ".");
      ScanAppend(START, Dotted(front), name + ".");
      ScanPart(s, name, '.');
      assert front + [name] == route;
    }
  }

  /** Reading the labels of a route leaves the last one as the pending text. */
  lemma ScanLabels(route: seq<string>)
    requires route != [] && forall name <- route :: Plain(name)
    ensures Scan(START, Labels(route))
         == Scanner(Url(route[..|route| - 1], "", "", ""), route[|route| - 1], Route)
  {
    var front, name := route[..|route| - 1], route[|route| - 1];
    var s := START.(url := START.url.(route := front));
    ScanDotted(front);
    ScanAppend(START, Dotted(front), name);
    ScanPlain(s, name);
    assert "" + name == name;
  }

  /** Reading a marked part when the text before it is still pending. */
  lemma ScanPrefixed(s: Scanner, mark: char, part: string)
    requires Separator(mark) && mark != '\0' && Plain(part)
    ensures Scan(s, Prefixed([mark], part)) == if part == "" then s else Read(s, mark).(text := part)
  {
    if part != "" {
      var next := Read(s, mark);
      ScanAppend(s, [mark], part);
      ScanOne(s, mark);
      ScanPlain(next, part);
      assert "" + part == part;
    }
  }

  /** Reading what follows the labels stores every part in its place. */
  lemma ScanTail(u: Url)
    requires u.route != [] && Clean(u)
    ensures var s := Scanner(Url(u.route[..|u.route| - 1], "", "", ""), u.route[|u.route| - 1], Route);
            var read := Scan(Scan(Scan(s, Prefixed(":", u.geosub)), Prefixed("/", u.resource)), Prefixed("?", u.query));
            Scan(read, "\0").url == u
  {
    var s := Scanner(Url(u.route[..|u.route| - 1], "", "", ""), u.route[|u.route| - 1], Route);
    var s1 := Scan(s, Prefixed(":", u.geosub));
    var s2 := Scan(s1, Prefixed("/", u.resource));
    var s3 := Scan(s2, Prefixed("?", u.query));
    ScanPrefixed(s, ':', u.geosub);
    ScanPrefixed(s1, '/', u.resource);
    ScanPrefixed(s2, '?', u.query);
    ScanOne(s3, '\0');
    assert u.route[..|u.route| - 1] + [u.route[|u.route| - 1]] == u.route;
  }

  /** Printing and parsing a URL with a route and no separator in any part gives
      the URL back, unless it is the blank one, which prints as a bare scheme. */
  lemma PrintThenDecode(u: Url)
    requires u.route != [] && Clean(u)
    ensures Decode(Print(u)) == if u == BLANK then None else Some(u)
  {
    var g, r, q := Prefixed(":", u.geosub), Prefixed("/", u.resource), Prefixed("?", u.query);
    var body := Labels(u.route) + g + r + q;
    assert Print(u) == SCHEME + body;
    assert Print(u)[|SCHEME|..] == body;
    ScanLabels(u.route);
    ScanTail(u);
    ScanAppend(START, Labels(u.route), g);
    ScanAppend(START, Labels(u.route) + g, r);
    ScanAppend(START, Labels(u.route) + g + r, q);
    ScanAppend(START, body, "\0");
    BodyEmpty(u);
  }

  lemma BodyEmpty(u: Url)
    requires u.route != []
    ensures |Print(u)| == |SCHEME| <==> u == BLANK
  {
    if |u.route| > 1 {
      assert |Dotted(u.route[..|u.route| - 1])| > 0;
    }
  }

  // ------------------------------------------------------------- normal form

  ghost predicate CleanScanner(s: Scanner) {
    Clean(s.url) && Plain(s.text) && (s.url.route == [] ==> s.part == Route)
  }

  lemma {:induction false} ScanClean(s: Scanner, text: string)
    requires CleanScanner(s)
    ensures CleanScanner(Scan(s, text))
    decreases |text|
  {
    if text != "" {
      ScanClean(Read(s, text[0]), text[1..]);
    }
  }

  /** The characters needed to print the labels and parts, with a mark each. */
  function Weight(u: Url): nat {
    |Dotted(u.route)| + PartWeight(u.geosub) + PartWeight(u.resource) + PartWeight(u.query)
  }

  function PartWeight(part: string): nat {
    if part == "" then 0 else 1 + |part|
  }

  lemma PrintWeight(u: Url)
    requires u.route != []
    ensures |Print(u)| + 1 == |SCHEME| + Weight(u)
  {
    var front, name := u.route[..|u.route| - 1], u.route[|u.route| - 1];
    assert front + [name] == u.route;
    DottedPush(front, name);
  }

  lemma DottedPush(route: seq<string>, name: string)
    ensures |Dotted(route + [name])| == |Dotted(route)| + |name| + 1
  {
    assert (route + [name])[..|route|] == route;
  }

  lemma ReadWeight(s: Scanner, c: char)
    ensures Weight(Read(s, c).url) + |Read(s, c).text| <= Weight(s.url) + |s.text| + 1
  {
    var pushed := PushLabel(s);
    DottedPush(s.url.route, s.text);
    assert Weight(pushed) == Weight(s.url) + |s.text| + 1;
  }

  lemma {:induction false} ScanWeight(s: Scanner, text: string)
    ensures Weight(Scan(s, text).url) + |Scan(s, text).text| <= Weight(s.url) + |s.text| + |text|
    decreases |text|
  {
    if text != "" {
      ReadWeight(s, text[0]);
      ScanWeight(Read(s, text[0]), text[1..]);
    }
  }

  /** The parser accepts exactly the strings that start with the scheme and go on;
      what it returns has a route, holds no separator, and takes no more
      characters to print. */
  lemma DecodeNormal(text: string)
    ensures Decode(text).Some? <==> SCHEME < text
    ensures Decode(text).Some? ==>
              var u := Decode(text).value;
              u.route != [] && Clean(u) && |Print(u)| <= |text|
  {
    if SCHEME < text {
      var body := text[|SCHEME|..];
      var s := Scan(START, body);
      ScanClean(START, body);
      ScanWeight(START, body + "\0");
      ScanClean(START, body + "\0");
      ScanAppend(START, body, "\0");
      ScanOne(s, '\0');
      PrintWeight(Scan(START, body + "\0").url);
    }
  }

  /** Printing what was parsed and parsing it again changes nothing, unless the
      first parse gave the blank URL. */
  lemma DecodeThenPrint(text: string)
    requires Decode(text).Some?
    ensures Decode(Print(Decode(text).value)) == if Decode(text).value == BLANK then None else Decode(text)
  {
    DecodeNormal(text);
    PrintThenDecode(Decode(text).value);
  }

  /** Exactly the URLs with a route, without separators and not blank survive being
      printed and parsed. */
  lemma RoundTripExactly(u: Url)
    ensures Decode(Print(u)) == Some(u) <==> u.route != [] && Clean(u) && u != BLANK
  {
    if u.route != [] && Clean(u) {
      PrintThenDecode(u);
    }
    DecodeNormal(Print(u));
  }

  // --------------------------------------------- what the parser reads, by position

  /** Where the piece of text that ends before position `i` begins: behind the last
      separator before it. */
  function PieceStart(s: string, i: nat): (j: nat)
    requires i <= |s|
    ensures j <= i
  {
    if i == 0 || Separator(s[i - 1]) then i else PieceStart(s, i - 1)
  }

  function Piece(s: string, i: nat): string
    requires i <= |s|
  {
    s[PieceStart(s, i)..i]
  }

  /** The last colon, slash or question mark before a position. */
  function MarkBefore(s: string, i: nat): Option<char>
    requires i <= |s|
  {
    if i == 0 then None
    else if s[i - 1] == ':' || s[i - 1] == '/' || s[i - 1] == '?' then Some(s[i - 1])
    else MarkBefore(s, i - 1)
  }

  /** The piece before position `i` is a label: a dot or a colon follows it, wherever it
      is, or another separator follows and there is no mark before. */
  predicate EndsLabel(s: string, i: nat)
    requires i < |s|
  {
    s[i] == '.' || s[i] == ':' || ((s[i] == '/' || s[i] == '?' || s[i] == '\0') && MarkBefore(s, i) == None)
  }

  /** The piece before position `i` is stored as the part that `mark` begins.  A slash
      does not store a resource or a query, and a question mark no query. */
  predicate EndsPart(s: string, i: nat, mark: char)
    requires i < |s|
  {
    && MarkBefore(s, i) == Some(mark)
    && (s[i] == '\0' || (s[i] == '/' && mark == ':') || (s[i] == '?' && mark != '?'))
  }

  /** The labels in the first `n` characters, in order. */
  function LabelsIn(s: string, n: nat): seq<string>
    requires n <= |s|
  {
    if n == 0 then [] else LabelsIn(s, n - 1) + if EndsLabel(s, n - 1) then [Piece(s, n - 1)] else []
  }

  /** The last piece in the first `n` characters that is stored as a part. */
  function PartIn(s: string, n: nat, mark: char): string
    requires n <= |s|
  {
    if n == 0 then "" else if EndsPart(s, n - 1, mark) then Piece(s, n - 1) else PartIn(s, n - 1, mark)
  }

  /** The URL in a text: its labels and, for each mark, the last part. */
  function UrlIn(s: string, n: nat): Url
    requires n <= |s|
  {
    Url(LabelsIn(s, n), PartIn(s, n, ':'), PartIn(s, n, '/'), PartIn(s, n, '?'))
  }

  function PartOf(mark: Option<char>): Part {
    if mark == None then Route
    else if mark.value == ':' then Geosub
    else if mark.value == '/' then Resource
    else Query
  }

  lemma ReadAt(s: string, n: nat)
    requires n < |s|
    ensures Read(Scanner(UrlIn(s, n), Piece(s, n), PartOf(MarkBefore(s, n))), s[n])
         == Scanner(UrlIn(s, n + 1), Piece(s, n + 1), PartOf(MarkBefore(s, n + 1)))
  {
    MarkIs(s, n);
    if !Separator(s[n]) {
      assert Piece(s, n) + [s[n]] == Piece(s, n + 1);
      assert LabelsIn(s, n) + [] == LabelsIn(s, n);
    }
  }

  lemma {:induction false} MarkIs(s: string, i: nat)
    requires i <= |s|
    ensures var mark := MarkBefore(s, i);
            mark == None || mark == Some(':') || mark == Some('/') || mark == Some('?')
  {
    if i > 0 {
      MarkIs(s, i - 1);
    }
  }

  lemma {:induction false} ScanByPosition(s: string, n: nat)
    requires n <= |s|
    ensures Scan(START, s[..n]) == Scanner(UrlIn(s, n), Piece(s, n), PartOf(MarkBefore(s, n)))
  {
    if n > 0 {
      ScanByPosition(s, n - 1);
      assert s[..n] == s[..n - 1] + [s[n - 1]];
      ScanAppend(START, s[..n - 1], [s[n - 1]]);
      ScanOne(Scan(START, s[..n - 1]), s[n - 1]);
      ReadAt(s, n - 1);
    }
  }

  /** Every accepted text is read as its pieces say: the route is the pieces that end a
      label, in order; geosub query, resource and query are the last pieces that end
      such a part. */
  lemma DecodeByPosition(text: string)
    requires SCHEME < text
    ensures var s := text[|SCHEME|..] + "\0"; Decode(text) == Some(UrlIn(s, |s|))
  {
    var s := text[|SCHEME|..] + "\0";
    ScanByPosition(s, |s|);
    assert s[..|s|] == s;
    DecodeNormal(text);
  }

  /** A dot in the resource makes what is before it a label. */
  lemma DotSample()
    ensures Decode("spring://a/b.c") == Some(Url(["a", "b"], "", "c", ""))
  {
    var s := Scanner(Url(["a"], "", "", ""), "", Resource);
    assert "spring://a/b.c"[|SCHEME|..] + "\0" == "a" + "/" + ("b" + ".") + ("c" + "\0");
    ScanPart(START, "a", '/');
    ScanPart(s, "b", '.');
    ScanPart(s.(url := s.url.(route := ["a", "b"])), "c", '\0');
    ScanAppend(START, "a" + "/", "b" + ".");
    ScanAppend(START, "a" + "/" + ("b" + "."), "c" + "\0");
    assert ["a"] + ["b"] == ["a", "b"] && [] + ["a"] == ["a"];
  }

  // ------------------------------------------------------------------ object

  class NetspaceUrl {
    var url: string
    var gsn: seq<string>
    var glq: string
    var res: string
    var spq: string

    function Value(): Url
      reads this
    {
      Url(gsn, glq, res, spq)
    }

    constructor (url: string)
      ensures this.url == url && Value() == START.url
    {
      this.url, gsn, glq, res, spq := url, [], "", "", "";
    }

    /** False stands for the exception `netspace_malformed_url`. */
    method DecodeUrl() returns (ok: bool)
      requires Value() == START.url
      modifies this
      ensures url == old(url)
      ensures ok <==> Decode(url).Some?
      ensures ok ==> Value() == Decode(url).value
    {
      if |url| <= 9 || url[..9] != SCHEME { return false; }
      var text := url[9..] + "\0";
      var t, state := "", Route;
      for i := 0 to |text|
        invariant url == old(url)
        invariant Scan(Scanner(Value(), t, state), text[i..]) == Scan(START, text)
      {
        var ch := text[i];
        assert text[i..][0] == ch && text[i..][1..] == text[i + 1..];
        if ch == '.' {
          gsn := gsn + [t];
          t := "";
        } else if ch == ':' {
          gsn := gsn + [t];
          t := "";
          state := Geosub;
        } else if ch == '/' {
          if state == Route { gsn := gsn + [t]; } else if state == Geosub { glq := t; }
          t := "";
          state := Resource;
        } else if ch == '?' {
          if state == Route { gsn := gsn + [t]; }
          else if state == Geosub { glq := t; }
          else if state == Resource { res := t; }
          t := "";
          state := Query;
        } else if ch == '\0' {
          if state == Route { gsn := gsn + [t]; }
          else if state == Geosub { glq := t; }
          else if state == Resource { res := t; }
          else if state == Query { spq := t; }
          t := "";
        } else {
          t := t + [ch];
        }
      }
      return |gsn| != 0;
    }

    method ToString() returns (text: string)
      modifies this`url
      ensures text == url == Print(Value())
    {
      var ss := SCHEME;
      if |gsn| != 0 {
        for i := 0 to |gsn| - 1
          invariant ss == SCHEME + Dotted(gsn[..i])
        {
          DottedStep(gsn, i);
          ss := ss + (gsn[i] + ".");
        }
        ss := ss + gsn[|gsn| - 1];
      }
      assert ss == SCHEME + Labels(gsn) by {
        LabelsText(gsn);
      }
      AddPart(ss, ":", glq);
      if |glq| != 0 { ss := ss + (":" + glq); }
      AddPart(ss, "/", res);
      if |res| != 0 { ss := ss + ("/" + res); }
      AddPart(ss, "?", spq);
      if |spq| != 0 { ss := ss + ("?" + spq); }
      url := ss;
      return url;
    }
  }

  lemma LabelsText(route: seq<string>)
    ensures SCHEME + Labels(route)
         == if |route| == 0 then SCHEME else SCHEME + Dotted(route[..|route| - 1]) + route[|route| - 1]
  {
  }

  lemma AddPart(text: string, mark: string, part: string)
    ensures text + Prefixed(mark, part) == if |part| != 0 then text + (mark + part) else text
  {
  }

  lemma DottedStep(route: seq<string>, i: nat)
    requires i < |route|
    ensures SCHEME + Dotted(route[..i + 1]) == SCHEME + Dotted(route[..i]) + (route[i] + ".")
  {
    assert route[..i + 1][..i] == route[..i];
  }
}
