/**
 `parse_sitemap_xml`: a cascade of three parsers over the text the language model returned.
 The first two (an XML-tolerant parser and a strict one) are seen only through the list of
 `url` elements they find, or `None` when they raise; the third is a concrete model of the
 regular-expression search for every non-greedy `<loc>...</loc>` group, in which `.` does not
 match a line break.
 */
module Sitemap {
  import opened Text
  import opened Results

  /** One `url` element as a parser sees it: the text of each child, `None` when the child is absent. */
  datatype UrlElement = UrlElement(loc: Option<string>, lastmod: Option<string>,
                                   changefreq: Option<string>, priority: Option<string>)

  /** The dictionary appended per URL: every field is a string, "" when unknown. */
  datatype UrlRecord = UrlRecord(url: string, lastmod: string, changefreq: string, priority: string)

  /** The stripped text of a child element, or "" when the child is absent. */
  function FieldText(child: Option<string>): string {
    if child.Some? then Strip(child.value) else ""
  }

  /** The record for an element that has a `loc`. */
  function ToRecord(e: UrlElement): (r: UrlRecord)
    requires e.loc.Some?
    ensures Trimmed(r.url) && Trimmed(r.lastmod) && Trimmed(r.changefreq) && Trimmed(r.priority)
    ensures e.lastmod.None? ==> r.lastmod == ""
    ensures e.changefreq.None? ==> r.changefreq == ""
    ensures e.priority.None? ==> r.priority == ""
  {
    StripTrimmed(e.loc.value);
    StripTrimmed(CellOr(e.lastmod));
    StripTrimmed(CellOr(e.changefreq));
    StripTrimmed(CellOr(e.priority));
    UrlRecord(Strip(e.loc.value), FieldText(e.lastmod), FieldText(e.changefreq), FieldText(e.priority))
  }

  function CellOr(child: Option<string>): string {
    if child.Some? then child.value else ""
  }

  /** Number of elements that have a `loc`. */
  function CountWithLoc(elements: seq<UrlElement>): nat {
    if elements == [] then 0 else (if elements[0].loc.Some? then 1 else 0) + CountWithLoc(elements[1..])
  }

  /**
   The loop shared by the first two tiers: one record per element with a `loc`, in document
   order; elements without one are skipped.
   */
  function Records(elements: seq<UrlElement>): (records: seq<UrlRecord>)
    ensures |records| == CountWithLoc(elements)
    ensures forall k :: 0 <= k < |records| ==>
      && Trimmed(records[k].url) && Trimmed(records[k].lastmod)
      && Trimmed(records[k].changefreq) && Trimmed(records[k].priority)
  {
    if elements == [] then []
    else if elements[0].loc.Some? then [ToRecord(elements[0])] + Records(elements[1..])
    else Records(elements[1..])
  }

  /** Parsing a document in two halves gives the records of each half, in order. */
  lemma {:induction false} RecordsAppend(a: seq<UrlElement>, b: seq<UrlElement>)
    ensures Records(a + b) == Records(a) + Records(b)
  {
    if a != [] {
      assert (a + b)[0] == a[0];
      assert (a + b)[1..] == a[1..] + b;
      RecordsAppend(a[1..], b);
    } else {
      assert a + b == b;
    }
  }

  /** When every element has a `loc`, record `k` is made from element `k`. */
  lemma {:induction false} RecordsAllLocated(elements: seq<UrlElement>)
    requires forall i :: 0 <= i < |elements| ==> elements[i].loc.Some?
    ensures |Records(elements)| == |elements|
    ensures forall k :: 0 <= k < |elements| ==> Records(elements)[k] == ToRecord(elements[k])
  {
    if elements != [] {
      RecordsAllLocated(elements[1..]);
      var rest := elements[1..];
      var tail := Records(rest);
      var all := Records(elements);
      assert all == [ToRecord(elements[0])] + tail;
      forall k | 0 <= k < |elements|
        ensures all[k] == ToRecord(elements[k])
      {
        if k > 0 {
          assert rest[k - 1] == elements[k];
          assert all[k] == tail[k - 1];
        }
      }
    }
  }

  /** An element without a `loc` adds nothing wherever it stands. */
  lemma RecordsSkipUnlocated(a: seq<UrlElement>, e: UrlElement, b: seq<UrlElement>)
    requires e.loc.None?
    ensures Records(a + [e] + b) == Records(a + b)
  {
    RecordsAppend(a + [e], b);
    RecordsAppend(a, [e]);
    RecordsAppend(a, b);
    assert Records([e]) == Records([]);
  }

  // ----- Tier 3: every lazy, single-line match of a `<loc>` element -----

  const OpenLoc: string := "<loc>"
  const CloseLoc: string := "</loc>"

  /**
   Where the lazy group ends: the first `</loc>` in `s` with no line break before it
   (`.` does not match "\n"); `None` when a line break or the end comes first.
   */
  function CloseAt(s: string): (r: Option<nat>)
    ensures r.Some? ==> HasAt(s, r.value, CloseLoc)
    decreases |s|
  {
    if HasAt(s, 0, CloseLoc) then Some(0)
    else if s == [] || s[0] == '\n' then None
    else
      var rest := CloseAt(s[1..]);
      if rest.Some? then
        assert s[1..][rest.value..rest.value + 6] == s[rest.value + 1..rest.value + 7];
        Some(rest.value + 1)
      else None
  }

  /**
   `CloseAt` is the lazy match: the `</loc>` it picks is the first one and has no line break
   before it, and when it finds none, every `</loc>` has a line break before it.
   */
  lemma {:induction false} CloseAtFirst(s: string)
    ensures CloseAt(s).Some? ==>
      && '\n' !in s[..CloseAt(s).value]
      && forall j :: 0 <= j < CloseAt(s).value ==> !HasAt(s, j, CloseLoc)
    ensures CloseAt(s).None? ==> forall j :: 0 <= j <= |s| && HasAt(s, j, CloseLoc) ==> '\n' in s[..j]
    decreases |s|
  {
    if !HasAt(s, 0, CloseLoc) && s != [] && s[0] != '\n' {
      var t := s[1..];
      CloseAtFirst(t);
      if CloseAt(t).Some? {
        CloseAtFirstFound(s);
      } else {
        CloseAtFirstMissing(s);
      }
    }
  }

  /** The step of `CloseAtFirst` when the rest of the text has a `</loc>` on the current line. */
  lemma CloseAtFirstFound(s: string)
    requires !HasAt(s, 0, CloseLoc) && s != [] && s[0] != '\n'
    requires CloseAt(s[1..]).Some?
    requires '\n' !in s[1..][..CloseAt(s[1..]).value]
    requires forall j :: 0 <= j < CloseAt(s[1..]).value ==> !HasAt(s[1..], j, CloseLoc)
    ensures CloseAt(s).Some? && CloseAt(s).value == CloseAt(s[1..]).value + 1
    ensures '\n' !in s[..CloseAt(s).value]
    ensures forall j :: 0 <= j < CloseAt(s).value ==> !HasAt(s, j, CloseLoc)
  {
    var t := s[1..];
    var n := CloseAt(t).value;
    assert CloseAt(s) == Some(n + 1);
    var line := s[..n + 1];
    forall k | 0 <= k < |line| ensures line[k] != '\n' {
      if k == 0 {
        assert line[k] == s[0];
      } else {
        var before := t[..n];
        assert line[k] == before[k - 1];
        assert before[k - 1] in before;
      }
    }
    forall j | 0 <= j < n + 1 ensures !HasAt(s, j, CloseLoc) {
      if j > 0 {
        assert !HasAt(t, j - 1, CloseLoc);
        ShiftHasAt(s, j - 1, CloseLoc);
      }
    }
  }

  /** The step of `CloseAtFirst` when the rest of the text has no `</loc>` on the current line. */
  lemma CloseAtFirstMissing(s: string)
    requires !HasAt(s, 0, CloseLoc) && s != [] && s[0] != '\n'
    requires CloseAt(s[1..]).None?
    requires forall j :: 0 <= j <= |s[1..]| && HasAt(s[1..], j, CloseLoc) ==> '\n' in s[1..][..j]
    ensures CloseAt(s).None?
    ensures forall j :: 0 <= j <= |s| && HasAt(s, j, CloseLoc) ==> '\n' in s[..j]
  {
    var t := s[1..];
    forall j | 0 <= j <= |s| && HasAt(s, j, CloseLoc) ensures '\n' in s[..j] {
      assert j > 0;
      ShiftHasAt(s, j - 1, CloseLoc);
      assert HasAt(t, j - 1, CloseLoc);
      assert '\n' in t[..j - 1];
      var k :| 0 <= k < j - 1 && t[..j - 1][k] == '\n';
      assert s[..j][k + 1] == '\n';
    }
  }

  /** An occurrence in `s[1..]` is an occurrence in `s` one place later. */
  lemma ShiftHasAt(s: string, j: nat, sub: string)
    requires s != []
    ensures HasAt(s[1..], j, sub) <==> HasAt(s, j + 1, sub)
  {
    if j + |sub| <= |s[1..]| {
      assert s[1..][j..j + |sub|] == s[j + 1..j + 1 + |sub|];
    }
  }

  /** The captured groups of every match, scanning left to right; after a match the scan resumes past it. */
  function FindLocs(s: string): (matches: seq<string>)
    ensures forall k :: 0 <= k < |matches| ==> '\n' !in matches[k]
    decreases |s|
  {
    if s == [] then []
    else if HasAt(s, 0, OpenLoc) && CloseAt(s[5..]).Some? then
      var j := CloseAt(s[5..]).value;
      CloseAtFirst(s[5..]);
      assert s[5..][..j] == s[5..5 + j];
      [s[5..5 + j]] + FindLocs(s[5 + j + 6..])
    else FindLocs(s[1..])
  }

  /** The record of one match: the stripped text, every other field "". */
  function RegexRecord(m: string): (r: UrlRecord)
    ensures r.lastmod == "" && r.changefreq == "" && r.priority == ""
    ensures Trimmed(r.url) && ('\n' !in m ==> '\n' !in r.url)
  {
    StripTrimmed(m);
    StripIsSlice(m);
    UrlRecord(Strip(m), "", "", "")
  }

  /** The records of the last tier, one per match, in order. */
  function RegexRecords(text: string): (records: seq<UrlRecord>)
    ensures |records| == |FindLocs(text)|
    ensures forall k :: 0 <= k < |records| ==> records[k].url == Strip(FindLocs(text)[k])
    ensures forall k :: 0 <= k < |records| ==>
      && records[k].lastmod == "" && records[k].changefreq == "" && records[k].priority == ""
      && Trimmed(records[k].url) && '\n' !in records[k].url
  {
    var matches := FindLocs(text);
    seq(|matches|, k requires 0 <= k < |matches| => RegexRecord(matches[k]))
  }

  /** A character of `Strip(s)` is a character of `s`. */
  lemma StripIsSlice(s: string)
    ensures forall c :: c in Strip(s) ==> c in s
  {
    var i := StripShape(s);
    forall c | c in Strip(s) ensures c in s {
      var k :| 0 <= k < |Strip(s)| && Strip(s)[k] == c;
      assert s[i + k] == c;
    }
  }

  /**
   `parse_sitemap_xml(text)`: the first tier that does not raise decides; `soup` and `etree`
   are the `url` elements the two XML parsers find, `None` when that parser raises.
   */
  function ParseSitemapXml(text: string, soup: Option<seq<UrlElement>>, etree: Option<seq<UrlElement>>)
    : (urls: seq<UrlRecord>)
    ensures soup.Some? ==> |urls| == CountWithLoc(soup.value)
    ensures soup.None? && etree.Some? ==> |urls| == CountWithLoc(etree.value)
    ensures soup.None? && etree.None? ==> |urls| == |FindLocs(text)|
    ensures soup.Some? ==> urls == Records(soup.value)
    ensures soup.None? && etree.Some? ==> urls == Records(etree.value)
    ensures forall k :: 0 <= k < |urls| ==> Trimmed(urls[k].url)
    ensures soup.None? && etree.None? ==> forall k :: 0 <= k < |urls| ==>
      urls[k].lastmod == "" && urls[k].changefreq == "" && urls[k].priority == ""
  {
    if soup.Some? then Records(soup.value)
    else if etree.Some? then Records(etree.value)
    else RegexRecords(text)
  }

  // ----- Documents in the shape of the sitemaps.org protocol -----

  /**
   A `<loc>` could start at `i` whatever follows `s`: the characters of `s` from `i` on agree
   with `<loc>` as far as they go.
   */
  predicate OpenTagCouldStart(s: string, i: nat)
    requires i < |s|
  {
    forall k :: 0 <= k < 5 && i + k < |s| ==> s[i + k] == OpenLoc[k]
  }

  /** No match of the regex can begin inside `s`, whatever text follows it. */
  predicate NoOpenTag(s: string) {
    forall i :: 0 <= i < |s| ==> !OpenTagCouldStart(s, i)
  }

  lemma NoOpenTagWithoutAngle(s: string)
    requires '<' !in s
    ensures NoOpenTag(s)
  {
    forall i | 0 <= i < |s| ensures !OpenTagCouldStart(s, i) {
      assert s[i] != OpenLoc[0];
    }
  }

  /** A tag whose name does not start like `loc>` cannot start a match. */
  lemma NoOpenTagTag(name: string, k: nat)
    requires '<' !in name
    requires k < 4 && k < |name| && name[k] != "loc>"[k]
    ensures NoOpenTag("<" + name)
  {
    var s := "<" + name;
    forall i | 0 <= i < |s| ensures !OpenTagCouldStart(s, i) {
      if i == 0 {
        assert s[k + 1] == name[k] && OpenLoc[k + 1] == "loc>"[k];
      } else {
        assert s[i] == name[i - 1] && s[i] != OpenLoc[0];
      }
    }
  }

  lemma NoOpenTagAppend(a: string, b: string)
    requires NoOpenTag(a) && NoOpenTag(b)
    ensures NoOpenTag(a + b)
  {
    var s := a + b;
    forall i | 0 <= i < |s| ensures !OpenTagCouldStart(s, i) {
      if i < |a| {
        assert !OpenTagCouldStart(a, i);
        var k :| 0 <= k < 5 && i + k < |a| && a[i + k] != OpenLoc[k];
        assert s[i + k] == a[i + k];
      } else {
        assert !OpenTagCouldStart(b, i - |a|);
        var k :| 0 <= k < 5 && i - |a| + k < |b| && b[i - |a| + k] != OpenLoc[k];
        assert s[i + k] == b[i - |a| + k];
      }
    }
  }

  /** Text in which no match can begin contributes no match and does not disturb what follows. */
  lemma {:induction false} FindLocsSkip(a: string, b: string)
    requires NoOpenTag(a)
    ensures FindLocs(a + b) == FindLocs(b)
    decreases |a|
  {
    if a == [] {
      assert a + b == b;
    } else {
      var s := a + b;
      assert !OpenTagCouldStart(a, 0);
      var k :| 0 <= k < 5 && k < |a| && a[k] != OpenLoc[k];
      assert s[k] == a[k];
      assert !HasAt(s, 0, OpenLoc);
      assert s[1..] == a[1..] + b;
      forall i | 0 <= i < |a[1..]| ensures !OpenTagCouldStart(a[1..], i) {
        assert !OpenTagCouldStart(a, i + 1);
        var m :| 0 <= m < 5 && i + 1 + m < |a| && a[i + 1 + m] != OpenLoc[m];
        assert a[1..][i + m] == a[i + 1 + m];
      }
      FindLocsSkip(a[1..], b);
    }
  }

  /** The lazy group of a `<loc>` whose text has no `<` and no line break ends at its own `</loc>`. */
  /** No `</loc>` starts inside `u`. */
  predicate NoCloseTag(u: string) {
    forall j :: 0 <= j < |u| ==> !HasAt(u, j, CloseLoc)
  }

  /** Text without `<` holds no `</loc>`. */
  lemma NoCloseTagWithoutAngle(u: string)
    requires '<' !in u
    ensures NoCloseTag(u)
  {
    forall j | 0 <= j < |u| ensures !HasAt(u, j, CloseLoc) {
      assert u[j] != CloseLoc[0];
    }
  }

  lemma NoCloseTagTail(u: string)
    requires u != [] && NoCloseTag(u)
    ensures NoCloseTag(u[1..])
  {
    forall j | 0 <= j < |u| - 1 ensures !HasAt(u[1..], j, CloseLoc) {
      ShiftHasAt(u, j, CloseLoc);
    }
  }

  /**
   A `</loc>` cannot start inside `u` and run on into the `</loc>` after it: the only `<` of
   `</loc>` is its first character.
   */
  lemma NoCloseBefore(u: string, b: string)
    requires u != [] && NoCloseTag(u)
    ensures !HasAt(u + CloseLoc + b, 0, CloseLoc)
  {
    var s := u + CloseLoc + b;
    if |u| >= 6 {
      assert s[..6] == u[..6];
      assert !HasAt(u, 0, CloseLoc);
    } else {
      assert s[..6][|u|] == '<' && CloseLoc[|u|] != '<';
    }
  }

  /** The lazy group of a `<loc>` whose text has no `</loc>` and no line break ends at its own `</loc>`. */
  lemma {:induction false} CloseAfter(u: string, b: string)
    requires NoCloseTag(u) && '\n' !in u
    ensures CloseAt(u + CloseLoc + b) == Some(|u|)
    decreases |u|
  {
    var s := u + CloseLoc + b;
    if u == [] {
      assert s[..6] == CloseLoc;
    } else {
      assert s[0] == u[0] && s[0] != '\n';
      NoCloseBefore(u, b);
      assert s[1..] == u[1..] + CloseLoc + b;
      assert CloseAt(s[1..]) == Some(|u| - 1) by {
        NoCloseTagTail(u);
        CloseAfter(u[1..], b);
      }
    }
  }

  /** One `<loc>u</loc>` yields `u`, whatever `u` holds short of a `</loc>` or a line break, and the scan continues right after it. */
  lemma MatchLoc(u: string, b: string)
    requires NoCloseTag(u) && '\n' !in u
    ensures FindLocs(OpenLoc + u + CloseLoc + b) == [u] + FindLocs(b)
  {
    var s := OpenLoc + u + CloseLoc + b;
    assert s[..5] == OpenLoc;
    assert s[5..] == u + CloseLoc + b;
    CloseAfter(u, b);
    assert s[5..5 + |u|] == u;
    assert s[5 + |u| + 6..] == b;
  }

  lemma CloseLocNoOpenTag()
    ensures NoOpenTag(CloseLoc)
  {
    NoOpenTagTag("/loc>", 0);
    assert "<" + "/loc>" == CloseLoc;
  }

  /** A line break before any `<` ends the search for `</loc>`. */
  lemma {:induction false} CloseAtLineBreak(u: string, rest: string)
    requires '<' !in u
    ensures CloseAt(u + "\n" + rest).None?
    decreases |u|
  {
    var s := u + "\n" + rest;
    if u == [] {
      assert s[0] == '\n';
    } else {
      assert s[0] == u[0];
      assert s[1..] == u[1..] + "\n" + rest;
      CloseAtLineBreak(u[1..], rest);
    }
  }

  /** A `<loc>` whose text runs over a line break is not matched at all. */
  lemma LocAcrossLinesIgnored(u: string, v: string)
    requires '<' !in u && '<' !in v
    ensures FindLocs(OpenLoc + u + "\n" + v + CloseLoc) == []
  {
    var s := OpenLoc + u + "\n" + v + CloseLoc;
    OpenedAcrossLines(u, v);
    UnclosedOpenSkipped(s);
    RestAcrossLines(u, v);
  }

  lemma OpenedAcrossLines(u: string, v: string)
    requires '<' !in u
    ensures CloseAt((OpenLoc + u + "\n" + v + CloseLoc)[5..]).None?
  {
    assert (OpenLoc + u + "\n" + v + CloseLoc)[5..] == u + "\n" + (v + CloseLoc);
    CloseAtLineBreak(u, v + CloseLoc);
  }

  /** A `<loc>` that is never closed on its line is stepped over one character at a time. */
  lemma UnclosedOpenSkipped(s: string)
    requires |s| >= 5 && CloseAt(s[5..]).None?
    ensures FindLocs(s) == FindLocs(s[1..])
  {
  }

  lemma RestAcrossLines(u: string, v: string)
    requires '<' !in u && '<' !in v
    ensures FindLocs((OpenLoc + u + "\n" + v + CloseLoc)[1..]) == []
  {
    var text := "loc>" + u + "\n" + v;
    assert (OpenLoc + u + "\n" + v + CloseLoc)[1..] == text + CloseLoc + [];
    NoOpenTagWithoutAngle(text);
    CloseLocNoOpenTag();
    NoOpenTagAppend(text, CloseLoc);
    FindLocsSkip(text + CloseLoc, []);
  }

  /**
   A `url` entry as it stands in the document: the text of each child as written between its
   tags (entity references not yet decoded), and the layout around them: `indent` before each
   child element, `outdent` before `</url>`, `after` following it.
   */
  datatype Entry = Entry(loc: string, lastmod: Option<string>, changefreq: Option<string>, priority: Option<string>,
                         indent: string, outdent: string, after: string)

  /** `<name>value</name>`, or nothing when the value is absent. */
  function Field(name: string, value: Option<string>): string {
    if value.Some? then "<" + name + ">" + value.value + "</" + name + ">" else ""
  }

  /** An optional child element on a line of its own, or nothing when it is absent. */
  function Child(indent: string, name: string, value: Option<string>): string {
    if value.Some? then indent + Field(name, value) else ""
  }

  /** Everything of an entry after its `</loc>`. */
  function EntryTail(e: Entry): string {
    Child(e.indent, "lastmod", e.lastmod) + Child(e.indent, "changefreq", e.changefreq)
      + Child(e.indent, "priority", e.priority) + (e.outdent + "</url>" + e.after)
  }

  function EntryText(e: Entry): string {
    "<url>" + e.indent + (OpenLoc + e.loc + CloseLoc + EntryTail(e))
  }

  function Body(entries: seq<Entry>): string {
    if entries == [] then "" else EntryText(entries[0]) + Body(entries[1..])
  }

  /**
   A whole document: a header (the XML declaration and `<urlset ...>`), the entries, and a
   footer (`</urlset>`, possibly followed by more text).
   */
  function Document(header: string, entries: seq<Entry>, footer: string): string {
    header + Body(entries) + footer
  }

  /** The `loc` of each entry, in order. */
  function Locs(entries: seq<Entry>): (locs: seq<string>)
    ensures |locs| == |entries|
    ensures forall k :: 0 <= k < |entries| ==> locs[k] == entries[k].loc
  {
    if entries == [] then [] else [entries[0].loc] + Locs(entries[1..])
  }

  /**
   What the regex steps over: the loc holds no `</loc>` and no line break; the other children
   and the layout hold no `<` (well-formed XML writes a `<` in text as `&lt;`).
   */
  predicate PlainEntry(e: Entry) {
    && NoCloseTag(e.loc) && '\n' !in e.loc
    && '<' !in e.indent && '<' !in e.outdent && '<' !in e.after
    && (e.lastmod.Some? ==> '<' !in e.lastmod.value)
    && (e.changefreq.Some? ==> '<' !in e.changefreq.value)
    && (e.priority.Some? ==> '<' !in e.priority.value)
  }

  lemma FieldNoOpenTag(name: string, k: nat, value: Option<string>)
    requires '<' !in name
    requires k < 3 && k < |name| && name[k] != "loc"[k]
    requires value.Some? ==> '<' !in value.value
    ensures NoOpenTag(Field(name, value))
  {
    if value.Some? {
      var open := name + ">";
      assert open[k] == name[k];
      NoOpenTagTag(open, k);
      NoOpenTagWithoutAngle(value.value);
      NoOpenTagTag("/" + name + ">", 0);
      NoOpenTagAppend("<" + open, value.value);
      NoOpenTagAppend("<" + open + value.value, "<" + ("/" + name + ">"));
      assert Field(name, value) == "<" + open + value.value + ("<" + ("/" + name + ">"));
    } else {
      assert Field(name, value) == [];
    }
  }

  lemma ChildNoOpenTag(indent: string, name: string, k: nat, value: Option<string>)
    requires '<' !in indent && '<' !in name
    requires k < 3 && k < |name| && name[k] != "loc"[k]
    requires value.Some? ==> '<' !in value.value
    ensures NoOpenTag(Child(indent, name, value))
  {
    if value.Some? {
      NoOpenTagWithoutAngle(indent);
      FieldNoOpenTag(name, k, value);
      NoOpenTagAppend(indent, Field(name, value));
    } else {
      assert Child(indent, name, value) == [];
    }
  }

  /** The layout and the closing tag that end an entry. */
  lemma EntryCloseNoOpenTag(outdent: string, after: string)
    requires '<' !in outdent && '<' !in after
    ensures NoOpenTag(outdent + "</url>" + after)
  {
    NoOpenTagWithoutAngle(outdent);
    NoOpenTagWithoutAngle(after);
    NoOpenTagTag("/url>", 0);
    assert "<" + "/url>" == "</url>";
    NoOpenTagAppend(outdent, "</url>");
    NoOpenTagAppend(outdent + "</url>", after);
  }

  lemma EntryTailNoOpenTag(e: Entry)
    requires PlainEntry(e)
    ensures NoOpenTag(EntryTail(e))
  {
    var a := Child(e.indent, "lastmod", e.lastmod);
    var b := Child(e.indent, "changefreq", e.changefreq);
    var c := Child(e.indent, "priority", e.priority);
    var d := e.outdent + "</url>" + e.after;
    ChildNoOpenTag(e.indent, "lastmod", 1, e.lastmod);
    ChildNoOpenTag(e.indent, "changefreq", 0, e.changefreq);
    ChildNoOpenTag(e.indent, "priority", 0, e.priority);
    EntryCloseNoOpenTag(e.outdent, e.after);
    NoOpenTagAppend(a, b);
    NoOpenTagAppend(a + b, c);
    NoOpenTagAppend(a + b + c, d);
  }

  /** The opening tag of an entry and the layout before its `loc`. */
  lemma EntryHeadNoOpenTag(indent: string)
    requires '<' !in indent
    ensures NoOpenTag("<url>" + indent)
  {
    NoOpenTagTag("url>", 0);
    assert "<" + "url>" == "<url>";
    NoOpenTagWithoutAngle(indent);
    NoOpenTagAppend("<url>", indent);
  }

  lemma EntryMatches(e: Entry, rest: string)
    requires PlainEntry(e)
    ensures FindLocs(EntryText(e) + rest) == [e.loc] + FindLocs(rest)
  {
    var head := "<url>" + e.indent;
    var tail := EntryTail(e);
    var inner := OpenLoc + e.loc + CloseLoc + (tail + rest);
    assert EntryText(e) + rest == head + inner;
    assert FindLocs(head + inner) == FindLocs(inner) by {
      EntryHeadNoOpenTag(e.indent);
      FindLocsSkip(head, inner);
    }
    assert FindLocs(inner) == [e.loc] + FindLocs(tail + rest) by {
      MatchLoc(e.loc, tail + rest);
    }
    assert FindLocs(tail + rest) == FindLocs(rest) by {
      EntryTailNoOpenTag(e);
      FindLocsSkip(tail, rest);
    }
  }

  lemma {:induction false} BodyMatches(entries: seq<Entry>, rest: string)
    requires forall k :: 0 <= k < |entries| ==> PlainEntry(entries[k])
    ensures FindLocs(Body(entries) + rest) == Locs(entries) + FindLocs(rest)
  {
    if entries == [] {
      assert Body(entries) + rest == rest;
    } else {
      BodyStep(entries, rest);
      BodyMatches(entries[1..], rest);
      assert Locs(entries) == [entries[0].loc] + Locs(entries[1..]);
    }
  }

  /** The first entry of a body yields its `loc`, and the scan goes on with the remaining entries. */
  lemma BodyStep(entries: seq<Entry>, rest: string)
    requires entries != [] && PlainEntry(entries[0])
    ensures FindLocs(Body(entries) + rest) == [entries[0].loc] + FindLocs(Body(entries[1..]) + rest)
  {
    BodyCons(entries, rest);
    EntryMatches(entries[0], Body(entries[1..]) + rest);
  }

  lemma BodyCons(entries: seq<Entry>, rest: string)
    requires entries != []
    ensures Body(entries) + rest == EntryText(entries[0]) + (Body(entries[1..]) + rest)
  {
  }

  /**
   On a document of the protocol's shape, laid out with any whitespace between the tags, the
   regex tier finds exactly the `loc` of every entry, in order.
   */
  lemma DocumentLocs(header: string, entries: seq<Entry>, footer: string)
    requires NoOpenTag(header) && NoOpenTag(footer)
    requires forall k :: 0 <= k < |entries| ==> PlainEntry(entries[k])
    ensures FindLocs(Document(header, entries, footer)) == Locs(entries)
  {
    DocumentParts(header, entries, footer);
    FindLocsSkip(header, Body(entries) + footer);
    BodyThenFooter(entries, footer);
  }

  lemma DocumentParts(header: string, entries: seq<Entry>, footer: string)
    ensures Document(header, entries, footer) == header + (Body(entries) + footer)
  {
  }

  lemma BodyThenFooter(entries: seq<Entry>, footer: string)
    requires NoOpenTag(footer)
    requires forall k :: 0 <= k < |entries| ==> PlainEntry(entries[k])
    ensures FindLocs(Body(entries) + footer) == Locs(entries)
  {
    BodyMatches(entries, footer);
    FooterHasNoMatch(footer);
  }

  lemma FooterHasNoMatch(footer: string)
    requires NoOpenTag(footer)
    ensures FindLocs(footer) == []
  {
    FindLocsSkip(footer, []);
    assert footer + [] == footer;
  }

  /** The closing tag of a sitemap cannot start a match. */
  lemma UrlsetCloseNoOpenTag()
    ensures NoOpenTag("</urlset>")
  {
    NoOpenTagTag("/urlset>", 0);
    assert "<" + "/urlset>" == "</urlset>";
  }

  // ----- The layout the prompt shows -----

  const XmlDeclaration: string := "<?xml" + (" version=\"1.0\"" + " encoding=\"UTF-8\"?>\n")

  /** The opening `urlset` with the protocol's namespace, and the indentation of the first entry. */
  const UrlsetOpen: string := "<urlset xmlns=" + ("\"http://www.sitemaps.org" + "/schemas/sitemap/0.9\">\n  ")

  const PromptHeader: string := XmlDeclaration + UrlsetOpen

  /** An entry as the prompt lays it out: one child per line, four spaces in, all three optional children present. */
  function PromptEntry(loc: string, lastmod: string, changefreq: string, priority: string): (e: Entry)
    ensures e.loc == loc
    ensures '<' !in e.indent && '<' !in e.outdent && '<' !in e.after
  {
    Entry(loc, Some(lastmod), Some(changefreq), Some(priority), "\n    ", "\n  ", "\n  ")
  }

  function PromptEntries(locs: seq<string>, lastmod: string, changefreq: string, priority: string)
    : (entries: seq<Entry>)
    ensures |entries| == |locs|
    ensures forall k :: 0 <= k < |locs| ==> entries[k] == PromptEntry(locs[k], lastmod, changefreq, priority)
  {
    seq(|locs|, k requires 0 <= k < |locs| => PromptEntry(locs[k], lastmod, changefreq, priority))
  }

  lemma PromptHeaderNoOpenTag()
    ensures NoOpenTag(PromptHeader)
  {
    XmlDeclarationNoOpenTag();
    UrlsetOpenNoOpenTag();
    NoOpenTagAppend(XmlDeclaration, UrlsetOpen);
  }

  lemma XmlDeclarationNoOpenTag()
    ensures NoOpenTag(XmlDeclaration)
  {
    var attributes := " version=\"1.0\"" + " encoding=\"UTF-8\"?>\n";
    NoOpenTagTag("?xml", 0);
    assert "<" + "?xml" == "<?xml";
    NoOpenTagWithoutAngle(" version=\"1.0\"");
    NoOpenTagWithoutAngle(" encoding=\"UTF-8\"?>\n");
    NoOpenTagAppend(" version=\"1.0\"", " encoding=\"UTF-8\"?>\n");
    NoOpenTagAppend("<?xml", attributes);
  }

  lemma UrlsetOpenNoOpenTag()
    ensures NoOpenTag(UrlsetOpen)
  {
    var namespace := "\"http://www.sitemaps.org" + "/schemas/sitemap/0.9\">\n  ";
    NoOpenTagTag("urlset xmlns=", 0);
    assert "<" + "urlset xmlns=" == "<urlset xmlns=";
    NamespaceNoOpenTag();
    NoOpenTagAppend("<urlset xmlns=", namespace);
  }

  lemma NamespaceNoOpenTag()
    ensures NoOpenTag("\"http://www.sitemaps.org" + "/schemas/sitemap/0.9\">\n  ")
  {
    NoOpenTagWithoutAngle("\"http://www.sitemaps.org");
    NoOpenTagWithoutAngle("/schemas/sitemap/0.9\">\n  ");
    NoOpenTagAppend("\"http://www.sitemaps.org", "/schemas/sitemap/0.9\">\n  ");
  }

  /**
   A sitemap written in the prompt's indented layout, with locs on one line each and no `<`
   in the other children, gives the regex tier exactly its locs, in order.
   */
  lemma PromptLayoutLocs(locs: seq<string>, lastmod: string, changefreq: string, priority: string)
    requires forall k :: 0 <= k < |locs| ==> NoCloseTag(locs[k]) && '\n' !in locs[k]
    requires '<' !in lastmod && '<' !in changefreq && '<' !in priority
    ensures FindLocs(Document(PromptHeader, PromptEntries(locs, lastmod, changefreq, priority), "</urlset>")) == locs
  {
    var entries := PromptEntries(locs, lastmod, changefreq, priority);
    PromptHeaderNoOpenTag();
    UrlsetCloseNoOpenTag();
    DocumentLocs(PromptHeader, entries, "</urlset>");
  }

  // ----- What the XML parsers read -----

  /** The character data of a text: the five predefined entity references replaced by their characters. */
  function XmlText(s: string): (r: string)
    ensures |r| <= |s|
    decreases |s|
  {
    if s == [] then []
    else if HasAt(s, 0, "&amp;") then "&" + XmlText(s[5..])
    else if HasAt(s, 0, "&lt;") then "<" + XmlText(s[4..])
    else if HasAt(s, 0, "&gt;") then ">" + XmlText(s[4..])
    else if HasAt(s, 0, "&quot;") then "\"" + XmlText(s[6..])
    else if HasAt(s, 0, "&apos;") then "'" + XmlText(s[6..])
    else [s[0]] + XmlText(s[1..])
  }

  function EscapeChar(c: char): string {
    if c == '&' then "&amp;" else if c == '<' then "&lt;" else if c == '>' then "&gt;" else [c]
  }

  /** How a text is written into an element so that an XML parser reads it back. */
  function Escape(s: string): (r: string)
    ensures '<' !in r
    ensures '\n' !in s ==> '\n' !in r
    ensures |r| >= |s|
  {
    if s == [] then [] else EscapeChar(s[0]) + Escape(s[1..])
  }

  /** A text that differs from `sub` at index `j` does not start with `sub`. */
  lemma NotAtStart(s: string, sub: string, j: nat)
    requires j < |s| && j < |sub| && s[j] != sub[j]
    ensures !HasAt(s, 0, sub)
  {
    if |sub| <= |s| {
      assert s[0..|sub|][j] == s[j];
    }
  }

  /** Text that does not start with `&` is read one character at a time. */
  lemma XmlTextPlainHead(s: string)
    requires s != [] && s[0] != '&'
    ensures XmlText(s) == [s[0]] + XmlText(s[1..])
  {
    NotAtStart(s, "&amp;", 0);
    NotAtStart(s, "&lt;", 0);
    NotAtStart(s, "&gt;", 0);
    NotAtStart(s, "&quot;", 0);
    NotAtStart(s, "&apos;", 0);
  }

  /** A text without `&` is read as it is written. */
  lemma {:induction false} XmlTextPlain(s: string)
    requires '&' !in s
    ensures XmlText(s) == s
    decreases |s|
  {
    if s != [] {
      XmlTextPlainHead(s);
      XmlTextPlain(s[1..]);
    }
  }

  lemma XmlTextAmp(rest: string)
    ensures XmlText("&amp;" + rest) == "&" + XmlText(rest)
  {
    var s := "&amp;" + rest;
    assert s[0..5] == "&amp;";
    assert s[5..] == rest;
  }

  lemma XmlTextLt(rest: string)
    ensures XmlText("&lt;" + rest) == "<" + XmlText(rest)
  {
    var s := "&lt;" + rest;
    NotAtStart(s, "&amp;", 1);
    assert s[0..4] == "&lt;";
    assert s[4..] == rest;
  }

  lemma XmlTextGt(rest: string)
    ensures XmlText("&gt;" + rest) == ">" + XmlText(rest)
  {
    var s := "&gt;" + rest;
    NotAtStart(s, "&amp;", 1);
    NotAtStart(s, "&lt;", 1);
    assert s[0..4] == "&gt;";
    assert s[4..] == rest;
  }

  /** One escaped character reads back as itself. */
  lemma XmlTextEscapeHead(c: char, rest: string)
    ensures XmlText(EscapeChar(c) + rest) == [c] + XmlText(rest)
  {
    if c == '&' {
      XmlTextAmp(rest);
    } else if c == '<' {
      XmlTextLt(rest);
    } else if c == '>' {
      XmlTextGt(rest);
    } else {
      var s := [c] + rest;
      XmlTextPlainHead(s);
      assert s[1..] == rest;
    }
  }

  /** An XML parser reads back exactly the text that was escaped into the document. */
  lemma {:induction false} XmlTextEscape(s: string)
    ensures XmlText(Escape(s)) == s
  {
    if s != [] {
      XmlTextEscapeHead(s[0], Escape(s[1..]));
      XmlTextEscape(s[1..]);
    }
  }

  function Decoded(child: Option<string>): Option<string> {
    if child.Some? then Some(XmlText(child.value)) else None
  }

  /** The element each XML parser reports for an entry: the children's text with entity references decoded. */
  function ElementOf(e: Entry): UrlElement {
    UrlElement(Some(XmlText(e.loc)), Decoded(e.lastmod), Decoded(e.changefreq), Decoded(e.priority))
  }

  function Elements(entries: seq<Entry>): (elements: seq<UrlElement>)
    ensures |elements| == |entries|
    ensures forall k :: 0 <= k < |entries| ==> elements[k] == ElementOf(entries[k])
  {
    seq(|entries|, k requires 0 <= k < |entries| => ElementOf(entries[k]))
  }

  /**
   Whichever tier decides, a document of the protocol's shape yields one record per entry, in
   order. The XML tiers give the stripped, decoded `loc` and keep the other children; the regex
   tier gives the stripped `loc` as written and loses the other children.
   */
  lemma CascadeAgreesOnUrls(header: string, entries: seq<Entry>, footer: string,
                            soup: Option<seq<UrlElement>>, etree: Option<seq<UrlElement>>)
    requires NoOpenTag(header) && NoOpenTag(footer)
    requires forall k :: 0 <= k < |entries| ==> PlainEntry(entries[k])
    requires soup.Some? ==> soup.value == Elements(entries)
    requires etree.Some? ==> etree.value == Elements(entries)
    ensures var urls := ParseSitemapXml(Document(header, entries, footer), soup, etree);
      && |urls| == |entries|
      && (soup.Some? || etree.Some? ==> forall k :: 0 <= k < |entries| ==>
            && urls[k].url == Strip(XmlText(entries[k].loc))
            && urls[k].lastmod == FieldText(Decoded(entries[k].lastmod)))
      && (soup.None? && etree.None? ==> forall k :: 0 <= k < |entries| ==>
            urls[k].url == Strip(entries[k].loc))
  {
    var elements := Elements(entries);
    if soup.Some? || etree.Some? {
      RecordsAllLocated(elements);
    } else {
      DocumentLocs(header, entries, footer);
    }
  }

  /** When no `loc` holds an entity reference, the three tiers report the same urls. */
  lemma CascadeAgreesWithoutEntities(header: string, entries: seq<Entry>, footer: string,
                                     soup: Option<seq<UrlElement>>, etree: Option<seq<UrlElement>>)
    requires NoOpenTag(header) && NoOpenTag(footer)
    requires forall k :: 0 <= k < |entries| ==> PlainEntry(entries[k]) && '&' !in entries[k].loc
    requires soup.Some? ==> soup.value == Elements(entries)
    requires etree.Some? ==> etree.value == Elements(entries)
    ensures var urls := ParseSitemapXml(Document(header, entries, footer), soup, etree);
      && |urls| == |entries|
      && forall k :: 0 <= k < |entries| ==> urls[k].url == Strip(entries[k].loc)
  {
    CascadeAgreesOnUrls(header, entries, footer, soup, etree);
    forall k | 0 <= k < |entries| ensures XmlText(entries[k].loc) == entries[k].loc {
      XmlTextPlain(entries[k].loc);
    }
  }
}
