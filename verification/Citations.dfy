/** Citations in a spec reference: which document each cited section belongs to, and the
    verdict over all of them. */
module Citations {
  import opened Patterns

  // ----- documents ------------------------------------------------------

  /** A document: its numbered headings, the sections its text cites, its amendments. */
  datatype Doc = Doc(
    path: string,
    normative: bool,
    tier: string,
    headings: set<string>,
    body: set<string>,
    amendments: set<string>)

  /** Documents by name, and by every accepted spelling. */
  datatype DocSet = DocSet(docs: map<string, Doc>, aliases: map<string, Doc>)

  /** How firmly a cited section landed; `NoHit` before any document was asked. */
  datatype Hit = NoHit | Heading | HeadingParent | InBody | Missing

  /** Some enclosing section, itself at least two numbers deep, is a heading. */
  ghost predicate ParentIsHeading(d: Doc, section: string) {
    exists i :: 0 <= i < |section| && section[i] == '.' && '.' in section[..i] && section[..i] in d.headings
  }

  ghost function HitOf(d: Doc, section: string): Hit {
    if section in d.headings then Heading
    else if ParentIsHeading(d, section) then HeadingParent
    else if section in d.body then InBody
    else Missing
  }

  method LastDot(s: string) returns (i: int)
    ensures -1 <= i < |s|
    ensures i >= 0 ==> s[i] == '.'
    ensures forall k :: i < k < |s| ==> s[k] != '.'
  {
    i := |s| - 1;
    while i >= 0 && s[i] != '.'
      invariant -1 <= i < |s|
      invariant forall k :: i < k < |s| ==> s[k] != '.'
    {
      i := i - 1;
    }
  }

  /** HasSection: the heading itself, else the nearest enclosing one, else the running text. */
  method HasSection(d: Doc, section: string) returns (hit: Hit)
    ensures hit == HitOf(d, section)
  {
    if section in d.headings { return Heading; }
    var parent := section;
    while true
      invariant parent <= section
      invariant forall i :: |parent| <= i < |section| && section[i] == '.' && '.' in section[..i] ==>
                  section[..i] !in d.headings
      decreases |parent|
    {
      var i := LastDot(parent);
      if i < 0 { break; }
      assert parent[..i] == section[..i];
      parent := parent[..i];
      if '.' !in parent { break; }
      if parent in d.headings { return HeadingParent; }
    }
    NoHigherParent(section, |parent|);
    return if section in d.body then InBody else Missing;
  }

  /** Above a prefix with no dot in it there is no section two numbers deep. */
  lemma NoHigherParent(section: string, n: nat)
    requires n <= |section| && '.' !in section[..n]
    ensures forall i :: 0 <= i < n ==> section[i] != '.' && '.' !in section[..i]
  {
    forall i | 0 <= i < n ensures section[i] != '.' && '.' !in section[..i] {
      assert section[..n][i] == section[i];
      assert forall k :: 0 <= k < i ==> section[..i][k] == section[..n][k];
    }
  }

  const CANDIDATE_LIMIT := 3

  predicate Carries(d: Doc, section: string) { d.normative && section in d.headings }

  /** The normative documents with the section as a heading. */
  function Carriers(ds: DocSet, section: string): set<string> {
    set name | name in ds.docs && Carries(ds.docs[name], section)
  }

  /** Lexicographic order, strictly. */
  predicate Before(a: string, b: string) {
    b != "" && (a == "" || a[0] < b[0] || (a[0] == b[0] && Before(a[1..], b[1..])))
  }

  lemma {:induction false} BeforeIsTotal(a: string, b: string)
    ensures Before(a, b) || Before(b, a) || a == b
    ensures !(Before(a, b) && Before(b, a)) && !Before(a, a)
  {
    if a != "" && b != "" {
      BeforeIsTotal(a[1..], b[1..]);
      assert a[0] == b[0] && a[1..] == b[1..] ==> [a[0]] + a[1..] == [b[0]] + b[1..];
    }
    if a != "" { BeforeIsTotal(a[1..], a[1..]); }
  }

  lemma {:induction false} BeforeTransitive(a: string, b: string, c: string)
    requires Before(a, b) && Before(b, c)
    ensures Before(a, c)
  {
    if a != "" && a[0] == b[0] == c[0] { BeforeTransitive(a[1..], b[1..], c[1..]); }
  }

  ghost predicate Ascending(s: seq<string>) {
    forall i, j :: 0 <= i < j < |s| ==> Before(s[i], s[j])
  }

  /** The elements of a set, listed in order. */
  ghost predicate Lists(s: seq<string>, names: set<string>) {
    Ascending(s) && forall n :: n in s <==> n in names
  }

  function Insert(s: seq<string>, n: string): seq<string> {
    if s == [] || Before(n, s[0]) then [n] + s else [s[0]] + Insert(s[1..], n)
  }

  lemma {:induction false} InsertLists(s: seq<string>, n: string, names: set<string>)
    requires Lists(s, names) && n !in names
    ensures Lists(Insert(s, n), names + {n})
  {
    if s == [] {
    } else if Before(n, s[0]) {
      forall j | 0 < j < |s| ensures Before(n, s[j]) { BeforeTransitive(n, s[0], s[j]); }
    } else {
      var first, rest := s[0], s[1..];
      assert first in s && first !in rest by { BeforeIsTotal(first, first); }
      BeforeIsTotal(first, n);
      assert forall m :: m in s <==> m == first || m in rest;
      InsertLists(rest, n, names - {first});
      forall m | m in Insert(rest, n) ensures Before(first, m) {
        if m != n { assert m in rest; }
      }
    }
  }

  /** A set has one listing. */
  lemma {:induction false} ListingUnique(s: seq<string>, t: seq<string>, names: set<string>)
    requires Lists(s, names) && Lists(t, names)
    ensures s == t
  {
    assert (s != [] ==> s[0] in names) && (t != [] ==> t[0] in names);
    if s != [] && t != [] {
      assert s[0] in t && t[0] in s;
      BeforeIsTotal(s[0], t[0]);
      BeforeIsTotal(s[0], s[0]);
      assert s[0] == t[0];
      assert s == [s[0]] + s[1..] && t == [t[0]] + t[1..];
      ListingUnique(s[1..], t[1..], names - {s[0]});
    }
  }

  ghost function Listing(names: set<string>): (s: seq<string>)
    ensures Lists(s, names)
  {
    if names == {} then []
    else
      var n :| n in names;
      InsertLists(Listing(names - {n}), n, names - {n});
      assert names - {n} + {n} == names;
      Insert(Listing(names - {n}), n)
  }

  /** The carriers in order, unless there are too many, and their number. */
  ghost function CandidatesOf(ds: DocSet, section: string): (seq<string>, nat) {
    var names := Carriers(ds, section);
    (if |names| > CANDIDATE_LIMIT then [] else Listing(names), |names|)
  }

  /** Candidates: range over the documents, sort, and cut off a long list. */
  method Candidates(ds: DocSet, section: string) returns (out: seq<string>, total: nat)
    ensures (out, total) == CandidatesOf(ds, section)
  {
    out, total := [], 0;
    var keys := ds.docs.Keys;
    ghost var names: set<string> := {};
    assert Lists(out, names);
    hide Carries, Lists, Before;
    while keys != {}
      invariant keys <= ds.docs.Keys
      invariant forall name :: name in names <==> name in ds.docs && name !in keys && Carries(ds.docs[name], section)
      invariant Lists(out, names) && total == |names|
      decreases keys
    {
      var name :| name in keys;
      if Carries(ds.docs[name], section) {
        InsertLists(out, name, names);
        out, total, names := Insert(out, name), total + 1, names + {name};
      }
      keys := keys - {name};
    }
    assert names == Carriers(ds, section);
    ListingUnique(out, Listing(names), names);
    if total > CANDIDATE_LIMIT { out := []; }
  }

  // ----- citations ------------------------------------------------------

  datatype Status = Found | MissingSection | UnknownDocument | NoDocument | DocumentOnly

  datatype Citation = Citation(
    raw: string,
    doc: string,
    path: string,
    section: string,
    amendment: string,
    hit: Hit,
    status: Status,
    normative: bool,
    tier: string,
    candidates: seq<string>,
    candidatesTotal: nat)
  {
    predicate Resolved() { status == Found || status == DocumentOnly }
  }

  ghost function SectionCitation(ds: DocSet, doc: Option<Doc>, name: string, section: string): Citation {
    match doc
    case None =>
      var (names, total) := CandidatesOf(ds, section);
      Citation("\U{A7}" + section, name, "", section, "", NoHit, if name == "" then NoDocument else UnknownDocument,
               false, "", names, total)
    case Some(d) =>
      var hit := HitOf(d, section);
      Citation("\U{A7}" + section, name, d.path, section, "", hit, if hit == Missing then MissingSection else Found,
               d.normative, d.tier, [], 0)
  }

  method ResolveSection(ds: DocSet, doc: Option<Doc>, name: string, section: string) returns (c: Citation)
    ensures c == SectionCitation(ds, doc, name, section)
  {
    hide HitOf, CandidatesOf;
    if doc.None? {
      var names, total := Candidates(ds, section);
      return Citation("\U{A7}" + section, name, "", section, "", NoHit,
                      if name == "" then NoDocument else UnknownDocument,
                      false, "", names, total);
    }
    var hit := HasSection(doc.value, section);
    return Citation("\U{A7}" + section, name, doc.value.path, section, "", hit,
                    if hit == Missing then MissingSection else Found,
                    doc.value.normative, doc.value.tier, [], 0);
  }

  function ResolveAmendment(doc: Option<Doc>, name: string, number: string): Citation {
    match doc
    case None => Citation("Amendment " + number, name, "", "", number, NoHit, NoDocument, false, "", [], 0)
    case Some(d) =>
      var (hit, status) := if number in d.amendments then (InBody, Found) else (NoHit, MissingSection);
      Citation("Amendment " + number, name, d.path, "", number, hit, status, d.normative, d.tier, [], 0)
  }

  /** How firmly a section lands: as a heading, beneath a heading of at least two numbers, in the
      text, or not at all. */
  lemma HitMeaning(d: Doc, section: string)
    ensures var below := exists parent, rest :: section == parent + "." + rest && '.' in parent && parent in d.headings;
            && (HitOf(d, section) == Heading <==> section in d.headings)
            && (HitOf(d, section) == HeadingParent <==> section !in d.headings && below)
            && (HitOf(d, section) == InBody <==> section !in d.headings && !below && section in d.body)
            && (HitOf(d, section) == Missing <==> section !in d.headings && !below && section !in d.body)
  {
    if ParentIsHeading(d, section) {
      var i :| 0 <= i < |section| && section[i] == '.' && '.' in section[..i] && section[..i] in d.headings;
      assert section == section[..i] + "." + section[i + 1..];
    }
    forall parent, rest | section == parent + "." + rest && '.' in parent && parent in d.headings
      ensures ParentIsHeading(d, section)
    {
      assert section[..|parent|] == parent && section[|parent|] == '.';
    }
  }

  /** What a section citation reports: with a document, its path, standing and tier, and found
      unless the hit is missing; without one, whether a name was given, and the candidates. */
  lemma SectionCitationMeaning(ds: DocSet, doc: Option<Doc>, name: string, section: string)
    ensures var c := SectionCitation(ds, doc, name, section);
            && c.raw == "\U{A7}" + section && c.doc == name && c.section == section && c.amendment == ""
            && (doc.Some? ==>
                  && c.path == doc.value.path && c.normative == doc.value.normative && c.tier == doc.value.tier
                  && c.hit == HitOf(doc.value, section) && c.candidates == [] && c.candidatesTotal == 0
                  && c.status == if c.hit == Missing then MissingSection else Found)
            && (doc.None? ==>
                  && c.path == "" && !c.normative && c.tier == "" && c.hit == NoHit
                  && c.status == (if name == "" then NoDocument else UnknownDocument)
                  && var carriers := set n | n in ds.docs && ds.docs[n].normative && section in ds.docs[n].headings;
                  && c.candidatesTotal == |carriers|
                  && (|carriers| > 3 ==> c.candidates == [])
                  && (|carriers| <= 3 ==> Lists(c.candidates, carriers)))
  {
    hide HitOf, Lists;
    assert Carriers(ds, section) == set n | n in ds.docs && ds.docs[n].normative && section in ds.docs[n].headings;
  }

  /** What an amendment citation reports. */
  lemma AmendmentCitationMeaning(doc: Option<Doc>, name: string, number: string)
    ensures var c := ResolveAmendment(doc, name, number);
            && c.raw == "Amendment " + number && c.doc == name && c.section == "" && c.amendment == number
            && (c.status == Found <==> doc.Some? && number in doc.value.amendments)
            && (c.status == MissingSection <==> doc.Some? && number !in doc.value.amendments)
            && (c.status == NoDocument <==> doc.None?)
            && c.hit == (if c.status == Found then InBody else NoHit)
            && (doc.Some? ==>
                  c.path == doc.value.path && c.normative == doc.value.normative && c.tier == doc.value.tier)
            && (doc.None? ==> c.path == "" && !c.normative && c.tier == "")
  {
  }

  // ----- tokens ---------------------------------------------------------

  datatype Lexeme = Section(text: string, start: nat, end: nat)
                  | Word(text: string, start: nat, end: nat)
                  | Number(text: string, start: nat, end: nat)

  ghost predicate Blank(space: char -> bool, s: string) {
    forall i :: 0 <= i < |s| ==> space(s[i])
  }

  /** Matches of the token expression: in order, apart, and each with some ink in it. */
  ghost predicate Tokenized(space: char -> bool, ref: string, toks: seq<Lexeme>) {
    && (forall k :: 0 <= k < |toks| ==>
          toks[k].start < toks[k].end <= |ref| && !Blank(space, ref[toks[k].start..toks[k].end]))
    && (forall j, k :: 0 <= j < k < |toks| ==> toks[j].end <= toks[k].start)
  }

  function Lower(c: char): char {
    if 'A' <= c <= 'Z' then c - 'A' + 'a' else c
  }

  predicate IsAmendmentWord(t: Lexeme) {
    t.Word? && |t.text| == 9 && forall i :: 0 <= i < 9 ==> Lower(t.text[i]) == "amendment"[i]
  }

  /** Upper case, hyphenated, at least four characters. */
  predicate LooksLikeDocToken(w: string) {
    |w| >= 4 && '-' in w && forall i :: 0 <= i < |w| ==> !('a' <= w[i] <= 'z')
  }

  predicate NamesDocument(ds: DocSet, t: Lexeme) {
    t.Word? && !IsAmendmentWord(t) && t.text in ds.aliases
  }

  predicate ClaimsDocument(ds: DocSet, t: Lexeme) {
    t.Word? && !IsAmendmentWord(t) && t.text !in ds.aliases && LooksLikeDocToken(t.text)
  }

  // ----- the binding, declaratively -------------------------------------

  /** The last known document named before token `k`. */
  function InForce(ds: DocSet, toks: seq<Lexeme>, k: nat): (Option<Doc>, string)
    requires k <= |toks|
  {
    if k == 0 then (None, "")
    else if NamesDocument(ds, toks[k - 1]) then (Some(ds.aliases[toks[k - 1].text]), toks[k - 1].text)
    else InForce(ds, toks, k - 1)
  }

  /** The token just before `k` is an unknown document name with only blanks between. */
  ghost predicate ClaimedAt(space: char -> bool, ref: string, ds: DocSet, toks: seq<Lexeme>, k: nat)
    requires k < |toks| && Tokenized(space, ref, toks)
  {
    k > 0 && ClaimsDocument(ds, toks[k - 1]) && Blank(space, ref[toks[k - 1].end..toks[k].start])
  }

  /** What token `k` contributes: a citation for every section, one for a number right after
      "amendment", nothing otherwise. */
  ghost function CitesAt(space: char -> bool, ref: string, ds: DocSet, toks: seq<Lexeme>, k: nat): seq<Citation>
    requires k < |toks| && Tokenized(space, ref, toks)
  {
    match toks[k]
    case Section(text, _, _) =>
      if ClaimedAt(space, ref, ds, toks, k) then [SectionCitation(ds, None, toks[k - 1].text, text)]
      else [SectionCitation(ds, InForce(ds, toks, k).0, InForce(ds, toks, k).1, text)]
    case Number(text, _, _) =>
      if k > 0 && IsAmendmentWord(toks[k - 1])
      then [ResolveAmendment(InForce(ds, toks, k).0, InForce(ds, toks, k).1, text)]
      else []
    case Word(_, _, _) => []
  }

  ghost function CitesUpTo(space: char -> bool, ref: string, ds: DocSet, toks: seq<Lexeme>, k: nat): seq<Citation>
    requires k <= |toks| && Tokenized(space, ref, toks)
  {
    if k == 0 then [] else CitesUpTo(space, ref, ds, toks, k - 1) + CitesAt(space, ref, ds, toks, k - 1)
  }

  // ----- the scanner ----------------------------------------------------

  method IsBlank(space: char -> bool, s: string) returns (b: bool)
    ensures b == Blank(space, s)
  {
    for i := 0 to |s|
      invariant forall k :: 0 <= k < i ==> space(s[k])
    {
      if !space(s[i]) { return false; }
    }
    return true;
  }

  /** A stretch that spans a token is not blank. */
  lemma SpanningTokenIsInk(space: char -> bool, ref: string, toks: seq<Lexeme>, j: nat, m: nat, k: nat)
    requires Tokenized(space, ref, toks) && j < m < k < |toks|
    ensures toks[j].end <= toks[k].start && !Blank(space, ref[toks[j].end..toks[k].start])
  {
    var a, b, c, d := toks[j].end, toks[m].start, toks[m].end, toks[k].start;
    var i :| 0 <= i < c - b && !space(ref[b..c][i]);
    assert ref[a..d][b - a + i] == ref[b + i] == ref[b..c][i];
  }

  /** The left-to-right scan, carrying the document in force, the last unknown document name
      and whether "amendment" awaits its number, refines the declarative binding. */
  method ParseCitations(space: char -> bool, ref: string, ds: DocSet, toks: seq<Lexeme>) returns (out: seq<Citation>)
    requires Tokenized(space, ref, toks)
    ensures out == CitesUpTo(space, ref, ds, toks, |toks|)
  {
    hide SectionCitation, ResolveAmendment, Blank, Lower;
    out := [];
    var curDoc: Option<Doc> := None;
    var curName := "";
    var claimed := "";
    var claimedEnd := 0;
    var pending := false;
    ghost var claimant := 0;
    for k := 0 to |toks|
      invariant out == CitesUpTo(space, ref, ds, toks, k)
      invariant (curDoc, curName) == InForce(ds, toks, k)
      invariant pending == (k > 0 && IsAmendmentWord(toks[k - 1]))
      invariant k > 0 && ClaimsDocument(ds, toks[k - 1]) ==> claimed != "" && claimant == k - 1
      invariant claimed != "" ==>
                  && claimant < k && ClaimsDocument(ds, toks[claimant])
                  && claimed == toks[claimant].text && claimedEnd == toks[claimant].end
    {
      var t := toks[k];
      if claimed != "" {
        if claimant < k - 1 { SpanningTokenIsInk(space, ref, toks, claimant, k - 1, k); }
        var blank := IsBlank(space, ref[claimedEnd..t.start]);
        if !blank { claimed := ""; }
      }
      assert claimed != "" <==> ClaimedAt(space, ref, ds, toks, k);
      match t {
        case Section(text, _, _) =>
          pending := false;
          var doc, name := if claimed != "" then None else curDoc, if claimed != "" then claimed else curName;
          var c := ResolveSection(ds, doc, name, text);
          out := out + [c];
          claimed := "";
        case Word(text, _, end) =>
          if IsAmendmentWord(t) {
            pending := true;
          } else {
            pending := false;
            if text in ds.aliases {
              curDoc, curName, claimed := Some(ds.aliases[text]), text, "";
            } else if LooksLikeDocToken(text) {
              claimed, claimedEnd, claimant := text, end, k;
            } else {
              claimed := "";
            }
          }
        case Number(text, _, _) =>
          if pending {
            pending := false;
            out := out + [ResolveAmendment(curDoc, curName, text)];
            claimed := "";
          }
      }
    }
  }

  // ----- the binding, token by token ------------------------------------

  ghost predicate SpelledAmendment(w: string) {
    |w| == 9 && forall i :: 0 <= i < 9 ==> w[i] == "amendment"[i] || w[i] == "AMENDMENT"[i]
  }

  ghost predicate KnownName(ds: DocSet, t: Lexeme) { t.Word? && !SpelledAmendment(t.text) && t.text in ds.aliases }

  /** An unknown upper-case, hyphenated word of at least four characters. */
  ghost predicate UnknownName(ds: DocSet, t: Lexeme) {
    && t.Word? && !SpelledAmendment(t.text) && t.text !in ds.aliases
    && |t.text| >= 4 && '-' in t.text && forall c :: c in t.text ==> !('a' <= c <= 'z')
  }

  lemma WordsExactly(ds: DocSet, t: Lexeme)
    ensures t.Word? ==> (SpelledAmendment(t.text) <==> IsAmendmentWord(t))
    ensures KnownName(ds, t) <==> NamesDocument(ds, t)
    ensures UnknownName(ds, t) <==> ClaimsDocument(ds, t)
  {
    if t.Word? && |t.text| == 9 {
      forall i | 0 <= i < 9
        ensures Lower(t.text[i]) == "amendment"[i] <==> t.text[i] == "amendment"[i] || t.text[i] == "AMENDMENT"[i]
      {
      }
    }
    if UnknownName(ds, t) { assert forall i :: 0 <= i < |t.text| ==> t.text[i] in t.text; }
  }

  /** What a section cites: an unknown name directly before it; else the last known name before
      it; else nothing. */
  lemma SectionBinding(space: char -> bool, ref: string, ds: DocSet, toks: seq<Lexeme>, k: nat)
    requires k < |toks| && Tokenized(space, ref, toks) && toks[k].Section?
    ensures (k > 0 && UnknownName(ds, toks[k - 1])
             && forall i :: toks[k - 1].end <= i < toks[k].start ==> space(ref[i])) ==>
              CitesAt(space, ref, ds, toks, k) == [SectionCitation(ds, None, toks[k - 1].text, toks[k].text)]
    ensures !(k > 0 && UnknownName(ds, toks[k - 1])
              && forall i :: toks[k - 1].end <= i < toks[k].start ==> space(ref[i])) ==>
              && (forall j :: && 0 <= j < k && KnownName(ds, toks[j])
                              && (forall i :: j < i < k ==> !KnownName(ds, toks[i])) ==>
                    CitesAt(space, ref, ds, toks, k)
                    == [SectionCitation(ds, Some(ds.aliases[toks[j].text]), toks[j].text, toks[k].text)])
              && ((forall j :: 0 <= j < k ==> !KnownName(ds, toks[j])) ==>
                    CitesAt(space, ref, ds, toks, k) == [SectionCitation(ds, None, "", toks[k].text)])
  {
    forall t ensures KnownName(ds, t) <==> NamesDocument(ds, t) ensures UnknownName(ds, t) <==> ClaimsDocument(ds, t) {
      WordsExactly(ds, t);
    }
    hide KnownName, NamesDocument, UnknownName, ClaimsDocument, SectionCitation;
    ClaimExactly(space, ref, ds, toks, k);
    forall j | 0 <= j < k && KnownName(ds, toks[j]) && (forall i :: j < i < k ==> !KnownName(ds, toks[i]))
      ensures InForce(ds, toks, k) == (Some(ds.aliases[toks[j].text]), toks[j].text)
    {
      InForceIsLatest(ds, toks, k, j);
    }
    if forall j :: 0 <= j < k ==> !KnownName(ds, toks[j]) { NoneInForce(ds, toks, k); }
    hide InForce, ClaimedAt;
  }

  /** A number cites exactly when the word before it is "amendment", in either case. */
  lemma NumberBinding(space: char -> bool, ref: string, ds: DocSet, toks: seq<Lexeme>, k: nat)
    requires k < |toks| && Tokenized(space, ref, toks) && toks[k].Number?
    ensures CitesAt(space, ref, ds, toks, k) ==
            if k > 0 && toks[k - 1].Word? && SpelledAmendment(toks[k - 1].text)
            then [ResolveAmendment(InForce(ds, toks, k).0, InForce(ds, toks, k).1, toks[k].text)]
            else []
  {
    if k > 0 { WordsExactly(ds, toks[k - 1]); }
    hide InForce, ResolveAmendment, Lower, SpelledAmendment;
  }

  lemma ClaimExactly(space: char -> bool, ref: string, ds: DocSet, toks: seq<Lexeme>, k: nat)
    requires k < |toks| && Tokenized(space, ref, toks)
    ensures ClaimedAt(space, ref, ds, toks, k) <==>
              && k > 0 && ClaimsDocument(ds, toks[k - 1])
              && forall i :: toks[k - 1].end <= i < toks[k].start ==> space(ref[i])
  {
    if k > 0 {
      var gap := ref[toks[k - 1].end..toks[k].start];
      assert forall i :: 0 <= i < |gap| ==> gap[i] == ref[toks[k - 1].end + i];
      if Blank(space, gap) {
        forall i | toks[k - 1].end <= i < toks[k].start ensures space(ref[i]) {
          assert ref[i] == gap[i - toks[k - 1].end];
        }
      }
    }
  }

  lemma {:induction false} NoneInForce(ds: DocSet, toks: seq<Lexeme>, k: nat)
    requires k <= |toks| && forall j :: 0 <= j < k ==> !NamesDocument(ds, toks[j])
    ensures InForce(ds, toks, k) == (None, "")
  {
    if k > 0 { NoneInForce(ds, toks, k - 1); }
  }

  ghost function Count(toks: seq<Lexeme>, k: nat): nat
    requires k <= |toks|
  {
    if k == 0 then 0
    else Count(toks, k - 1)
         + (if toks[k - 1].Section? || (toks[k - 1].Number? && k > 1 && IsAmendmentWord(toks[k - 2])) then 1 else 0)
  }

  /** One citation per section, and per number directly after "amendment". */
  lemma {:induction false} CitationCount(space: char -> bool, ref: string, ds: DocSet, toks: seq<Lexeme>, k: nat)
    requires k <= |toks| && Tokenized(space, ref, toks)
    ensures |CitesUpTo(space, ref, ds, toks, k)| == Count(toks, k)
  {
    hide InForce, Tokenized, ClaimedAt, IsAmendmentWord, SectionCitation, ResolveAmendment;
    if k > 0 { CitationCount(space, ref, ds, toks, k - 1); }
  }

  /** A cited document is the latest one named: nothing in between names another. */
  lemma {:induction false} InForceIsLatest(ds: DocSet, toks: seq<Lexeme>, k: nat, j: nat)
    requires k <= |toks| && j < k && NamesDocument(ds, toks[j])
    requires forall i :: j < i < k ==> !NamesDocument(ds, toks[i])
    ensures InForce(ds, toks, k) == (Some(ds.aliases[toks[j].text]), toks[j].text)
  {
    if j < k - 1 { InForceIsLatest(ds, toks, k - 1, j); }
  }

  // ----- verdicts -------------------------------------------------------

  datatype Verdict = Resolved | Partial | NonNormative | Unresolved | NoCitation

  ghost predicate SomeNormative(cits: seq<Citation>) {
    exists c :: c in cits && (c.status == Found || c.status == DocumentOnly) && c.normative
  }

  ghost predicate SomeResolved(cits: seq<Citation>) {
    exists c :: c in cits && (c.status == Found || c.status == DocumentOnly)
  }

  ghost predicate AllResolved(cits: seq<Citation>) {
    forall c :: c in cits ==> c.status == Found || c.status == DocumentOnly
  }

  method VerdictFor(cits: seq<Citation>) returns (v: Verdict)
    ensures v == NoCitation <==> cits == []
    ensures v == Resolved <==> SomeNormative(cits) && AllResolved(cits)
    ensures v == Partial <==> SomeNormative(cits) && !AllResolved(cits)
    ensures v == NonNormative <==> SomeResolved(cits) && !SomeNormative(cits)
    ensures v == Unresolved <==> cits != [] && !SomeResolved(cits)
  {
    if cits == [] { return NoCitation; }
    var anyResolved, anyNormative, allResolved := false, false, true;
    for i := 0 to |cits|
      invariant anyResolved == exists k :: 0 <= k < i && cits[k].Resolved()
      invariant anyNormative == exists k :: 0 <= k < i && cits[k].Resolved() && cits[k].normative
      invariant allResolved == forall k :: 0 <= k < i ==> cits[k].Resolved()
    {
      if !cits[i].Resolved() {
        allResolved := false;
      } else {
        anyResolved := true;
        if cits[i].normative { anyNormative := true; }
      }
    }
    assert anyResolved == SomeResolved(cits);
    assert anyNormative == SomeNormative(cits);
    assert allResolved == AllResolved(cits);
    return if anyNormative && allResolved then Resolved
           else if anyNormative then Partial
           else if anyResolved then NonNormative
           else Unresolved;
  }
}
