/**
 What a search term is sent to a Prism Central as, and how a dotted term matches an address
 (`crates/core/src/search.rs`).
 */
module Search {
  import opened Wrappers
  import T = Text
  import opened Json
  import opened Filter
  import opened FilterEval
  import opened FilterLaws

  // ---- the filter a term is sent as ----

  /** What the catalog says a kind's list takes: whether a `$filter` at all, and on which fields. */
  datatype ListParams = ListParams(filter: bool, fields: seq<string>)

  /** Five groups of 8, 4, 4, 4 and 12 hexadecimal digits. */
  predicate IsUuid(term: string) {
    var parts, groups := T.Split(term, '-'), [8, 4, 4, 4, 12];
    |parts| == 5 && forall i :: 0 <= i < 5 ==> |parts[i]| == groups[i] && T.All(parts[i], T.IsHexDigit)
  }

  function Odata(params: ListParams, term: string): Option<string> {
    if !params.filter || term == "" || DottedOf(term).Some? then None
    else if "name" in params.fields then Some("startswith(name,'" + (DoubleQuotes(term) + "')"))
    else if "extId" in params.fields && IsUuid(term) then Some("extId eq '" + (DoubleQuotes(term) + "'"))
    else None
  }

  /** The row's text at a key, when it is text. */
  predicate HasText(row: Value, key: string, s: string) {
    Lookup(row, key) == Some(String(s))
  }

  lemma {:induction false} LookupOne(row: Value, key: string)
    ensures LookupPath(row, [key]) == if Lookup(row, key) == Some(Null) then None else Lookup(row, key)
  {
    match Lookup(row, key) {
      case Some(v) => assert LookupPath(v, [key][1..]) == if v.Null? then None else Some(v);
      case None =>
    }
  }

  lemma UuidHasNoTimeDash(term: string)
    requires IsUuid(term)
    ensures |term| > 8 && term[4] != '-' && T.All(term[..5], T.IsAscii)
  {
    T.JoinSplit(term, '-');
    var parts := T.Split(term, '-');
    assert term == parts[0] + ['-'] + T.Join(parts[1..], '-');
    assert T.IsHexDigit(parts[0][4]);
    assert term[4] == parts[0][4];
    assert term[..5] == parts[0][..5];
  }

  lemma {:induction false} SplitAtPointKeepsAll(s: string)
    ensures SplitAtPoint(s) == (s, "") || SplitAtPoint(s).0 + "." + SplitAtPoint(s).1 == s
  {
    if s != "" && s[0] != '.' {
      SplitAtPointKeepsAll(s[1..]);
      assert [s[0]] + s[1..] == s;
      var rest := SplitAtPoint(s[1..]);
      assert SplitAtPoint(s).0 + "." + SplitAtPoint(s).1 == [s[0]] + (rest.0 + "." + rest.1);
    } else if s != "" {
      assert "" + "." + s[1..] == s;
    }
  }

  lemma KeyStartsWithBody(v: string)
    requires IsInstant(v)
    ensures v[..|v| - 1] <= InstantKey(v)
  {
    SplitAtPointKeepsAll(v[..|v| - 1]);
  }

  /** An instant's key still has the dash after its fourth byte. */
  lemma KeyKeepsTheDash(v: string)
    requires IsInstant(v)
    ensures |T.Utf8(InstantKey(v))| > 4 && T.Utf8(InstantKey(v))[4] == '-' as int
  {
    var body, key := v[..|v| - 1], InstantKey(v);
    KeyStartsWithBody(v);
    assert v == body + "Z";
    assert key == body + key[|body|..];
    assert |T.Utf8(v)| >= 20 && T.Utf8(v)[4] == '-' as int;
    hide InstantKey, IsInstant, T.Utf8;
    T.Utf8Concat(body, "Z");
    T.Utf8Concat(body, key[|body|..]);
    T.Utf8OfAscii("Z");
  }

  /** `eq` with a text that cannot be an instant is equality with it. */
  lemma EqualityOfPlainText(v: string, term: string)
    requires |term| > 4 && T.All(term[..5], T.IsAscii) && term[4] != '-'
    ensures T.CompareText(InstantKey(v), InstantKey(term)) == T.Equal <==> v == term
  {
    assert term == term[..5] + term[5..];
    T.Utf8Concat(term[..5], term[5..]);
    T.Utf8OfAscii(term[..5]);
    assert T.Utf8(term)[4] == term[4] as int;
    T.CompareEqual(T.Utf8(InstantKey(v)), T.Utf8(term));
    if IsInstant(v) {
      KeyKeepsTheDash(v);
    } else if T.Utf8(v) == T.Utf8(term) {
      T.Utf8Injective(v, term);
    }
  }

  /** Whatever quotes a term holds, the filter it is sent as parses to the question it stands
      for: rows whose name starts with it, or the row whose identifier it is. */
  lemma OdataMeansTheTerm(params: ListParams, term: string)
    requires Odata(params, term).Some?
    ensures Parse(Odata(params, term).value) == Ok(Meant(params, term))
  {
    OdataIsPrinted(params, term);
    MeantIsExpressible(params, term);
    ParseUndoesPrint(Meant(params, term));
  }

  function Meant(params: ListParams, term: string): Filter {
    if "name" in params.fields then StartsWith(["name"], term) else Compare(["extId"], Eq, Text(term))
  }

  lemma MeantIsExpressible(params: ListParams, term: string)
    ensures Expressible(Meant(params, term))
  {
    assert IsIdentifier("name") && IsIdentifier("extId");
    assert |T.LowerCase("extId")| == 5;
  }

  lemma OdataIsPrinted(params: ListParams, term: string)
    requires Odata(params, term).Some?
    ensures Odata(params, term).value == Print(Meant(params, term))
  {
    var q := DoubleQuotes(term);
    hide IsUuid, DottedOf, DoubleQuotes;
    assert PathText(["name"]) == "name" && PathText(["extId"]) == "extId";
    if "name" in params.fields {
      assert QuotedText(term) == "'" + q + "'";
      assert BareText(StartsWith(["name"], term)) == "startswith(" + ("name" + ("," + (("'" + q + "'") + ")")));
      assert "startswith(" + ("name" + ("," + (("'" + q + "'") + ")"))) == "startswith(name,'" + (q + "')");
    } else {
      assert LiteralText(Text(term)) == "'" + q + "'";
      assert BareText(Compare(["extId"], Eq, Text(term))) == "extId" + (" " + ("eq" + (" " + ("'" + q + "'"))));
      assert "extId" + (" " + ("eq" + (" " + ("'" + q + "'")))) == "extId eq '" + (q + "'");
    }
  }

  lemma NameFilterMatches(row: Value, term: string, numbers: NumberOrder)
    ensures Matches(StartsWith(["name"], term), row, numbers) <==>
              exists s :: HasText(row, "name", s) && term <= s
  {
    LookupOne(row, "name");
    if Matches(StartsWith(["name"], term), row, numbers) {
      assert HasText(row, "name", Lookup(row, "name").value.s);
    }
  }

  lemma IdentifierFilterMatches(row: Value, term: string, numbers: NumberOrder)
    requires IsUuid(term)
    ensures Matches(Compare(["extId"], Eq, Text(term)), row, numbers) <==> HasText(row, "extId", term)
  {
    LookupOne(row, "extId");
    UuidHasNoTimeDash(term);
    match Lookup(row, "extId") {
      case Some(String(v)) => EqualityOfPlainText(v, term);
      case _ =>
    }
  }

  // ---- dotted terms ----

  /** A term taken apart at its points: what stands between two of them or before one has to match
      whole, the digits behind the last one only from the left. */
  datatype Dotted = Dotted(exact: seq<string>, partial: Option<string>)

  /** Digits and points, at least one of each, and no octet missing before a point. */
  predicate IsAddressTerm(term: string) {
    && '.' in term
    && (exists i :: 0 <= i < |term| && T.IsDigit(term[i]))
    && (forall i :: 0 <= i < |term| ==> T.IsDigit(term[i]) || term[i] == '.')
    && term[0] != '.'
    && (forall i :: 0 <= i < |term| - 1 ==> !(term[i] == '.' && term[i + 1] == '.'))
  }

  function DottedOf(term: string): Option<Dotted> {
    if !('.' in term) || !(exists i :: 0 <= i < |term| && T.IsDigit(term[i])) then None
    else if !(forall i :: 0 <= i < |term| ==> T.IsDigit(term[i]) || term[i] == '.') then None
    else
      var parts := T.Split(term, '.');
      var last, exact := parts[|parts| - 1], parts[..|parts| - 1];
      if exists i :: 0 <= i < |exact| && exact[i] == "" then None
      else Some(Dotted(exact, if last == "" then None else Some(last)))
  }

  /** `Dotted::parse`: the parts of the term, the last of them popped off. */
  method ParseDotted(term: string) returns (r: Option<Dotted>)
    ensures r == DottedOf(term)
  {
    if '.' !in term || !(exists i :: 0 <= i < |term| && T.IsDigit(term[i])) {
      return None;
    }
    if !(forall i :: 0 <= i < |term| ==> T.IsDigit(term[i]) || term[i] == '.') {
      return None;
    }
    var parts := T.Split(term, '.');
    var partial: Option<string>;
    if parts[|parts| - 1] == "" {
      parts := parts[..|parts| - 1];
      partial := None;
    } else {
      partial := Some(parts[|parts| - 1]);
      parts := parts[..|parts| - 1];
    }
    if exists i :: 0 <= i < |parts| && parts[i] == "" {
      return None;
    }
    r := Some(Dotted(parts, partial));
  }

  /** An address matches when it has the term's parts one behind the other somewhere. */
  predicate DottedMatches(d: Dotted, address: string) {
    var candidate := T.Split(address, '.');
    var wanted := |d.exact| + (if d.partial.Some? then 1 else 0);
    wanted != 0 && wanted <= |candidate| &&
    exists start :: 0 <= start <= |candidate| - wanted && LinesUp(d, candidate, start)
  }

  predicate LinesUp(d: Dotted, candidate: seq<string>, start: nat)
    requires start + |d.exact| + (if d.partial.Some? then 1 else 0) <= |candidate|
  {
    && (forall i :: 0 <= i < |d.exact| ==> candidate[start + i] == d.exact[i])
    && (d.partial.Some? ==> d.partial.value <= candidate[start + |d.exact|])
  }

  // ---- octets as text ----

  /** Octets written out, a point after each. */
  function Dots(octets: seq<string>): string {
    if octets == [] then "" else octets[0] + "." + Dots(octets[1..])
  }

  function DottedText(d: Dotted): string {
    Dots(d.exact) + (if d.partial.Some? then d.partial.value else "")
  }

  predicate PointFree(octets: seq<string>) {
    forall i :: 0 <= i < |octets| ==> '.' !in octets[i]
  }

  predicate WellFormed(d: Dotted) {
    PointFree(d.exact) && (d.partial.Some? ==> d.partial.value != "" && '.' !in d.partial.value)
  }

  lemma {:induction false} DotsOfJoin(parts: seq<string>)
    requires parts != []
    ensures Dots(parts[..|parts| - 1]) + parts[|parts| - 1] == T.Join(parts, '.')
    ensures Dots(parts) == T.Join(parts, '.') + "."
  {
    if |parts| > 1 {
      DotsOfJoin(parts[1..]);
      assert parts[..|parts| - 1][1..] == parts[1..][..|parts| - 2];
      assert parts[..|parts| - 1] != [];
    } else {
      assert parts[1..] == [];
    }
  }

  /** The octets of a term spell the term. */
  lemma OctetsSpellTheTerm(term: string)
    requires DottedOf(term).Some?
    ensures DottedText(DottedOf(term).value) == term && WellFormed(DottedOf(term).value)
  {
    var parts := T.Split(term, '.');
    T.JoinSplit(term, '.');
    DotsOfJoin(parts);
  }

  predicate NoDoublePoint(s: string) {
    forall i :: 0 <= i < |s| - 1 ==> !(s[i] == '.' && s[i + 1] == '.')
  }

  lemma NoDoublePointAfter(octet: string, rest: string)
    requires '.' !in octet
    ensures NoDoublePoint(octet + "." + rest) <==> (rest == "" || rest[0] != '.') && NoDoublePoint(rest)
  {
    var s, n := octet + "." + rest, |octet| + 1;
    assert forall i :: 0 <= i < |rest| ==> s[n + i] == rest[i];
    if NoDoublePoint(s) {
      assert rest != "" ==> !(s[n - 1] == '.' && s[n] == '.');
      forall i | 0 <= i < |rest| - 1 ensures !(rest[i] == '.' && rest[i + 1] == '.') {
        assert !(s[n + i] == '.' && s[n + i + 1] == '.');
      }
    }
    if (rest == "" || rest[0] != '.') && NoDoublePoint(rest) {
      forall i | 0 <= i < |s| - 1 ensures !(s[i] == '.' && s[i + 1] == '.') {
        if i >= n {
          assert !(rest[i - n] == '.' && rest[i - n + 1] == '.');
        }
      }
    }
  }

  /** An octet is missing exactly when the text starts on a point or doubles one. */
  lemma {:induction false} MissingOctets(exact: seq<string>, last: string)
    requires exact != [] && PointFree(exact) && '.' !in last
    ensures var s := Dots(exact) + last;
            s != "" && ((forall i :: 0 <= i < |exact| ==> exact[i] != "") <==> s[0] != '.' && NoDoublePoint(s))
  {
    var rest := Dots(exact[1..]) + last;
    assert Dots(exact) + last == exact[0] + "." + rest;
    NoDoublePointAfter(exact[0], rest);
    if |exact| == 1 {
      assert rest == last;
    } else {
      MissingOctets(exact[1..], last);
      assert (forall i :: 0 <= i < |exact| ==> exact[i] != "") <==>
             exact[0] != "" && forall i :: 0 <= i < |exact[1..]| ==> exact[1..][i] != "" by {
        assert forall i :: 1 <= i < |exact| ==> exact[i] == exact[1..][i - 1];
      }
    }
  }

  lemma {:induction false} PointMeansTwoParts(s: string)
    requires '.' in s
    ensures |T.Split(s, '.')| > 1
  {
    if s[0] != '.' {
      assert '.' in s[1..];
      PointMeansTwoParts(s[1..]);
    }
  }

  /** A term is dotted exactly when it reads as part of an address. */
  lemma AddressTermsAreDotted(term: string)
    ensures DottedOf(term).Some? <==> IsAddressTerm(term)
  {
    if '.' in term {
      var parts := T.Split(term, '.');
      T.JoinSplit(term, '.');
      DotsOfJoin(parts);
      PointMeansTwoParts(term);
      MissingOctets(parts[..|parts| - 1], parts[|parts| - 1]);
    }
  }

  // ---- octet matching is anchored substring matching ----

  /** The term occurs at `p`, at the start or right after a point. */
  predicate AnchoredAt(term: string, s: string, p: nat) {
    p <= |s| && term <= s[p..] && (p == 0 || s[p - 1] == '.')
  }

  /** The octets from the head of `candidate` on. */
  predicate HeadLinesUp(d: Dotted, candidate: seq<string>) {
    && |d.exact| + (if d.partial.Some? then 1 else 0) <= |candidate|
    && LinesUp(d, candidate, 0)
  }

  lemma PrefixUpToPoint(a: string, b: string, x: string, y: string)
    requires '.' !in a && '.' !in b
    ensures a + "." + x <= b + "." + y <==> a == b && x <= y
  {
    var s, t := a + "." + x, b + "." + y;
    if s <= t {
      assert s[|a|] == t[|a|] == '.';
      assert forall i :: 0 <= i < |b| ==> t[i] == b[i] != '.';
      assert forall i :: 0 <= i < |a| ==> t[i] == s[i] == a[i] != '.';
      assert t[|b|] == '.';
      assert a == s[..|a|] == t[..|a|] == b;
      assert x == s[|a| + 1..] && y == t[|a| + 1..];
    }
  }

  lemma PartialUpToPoint(p: string, b: string, y: string)
    requires p != "" && '.' !in p && '.' !in b
    ensures p <= b + "." + y <==> p <= b
  {
    var t := b + "." + y;
    assert t[|b|] == '.';
    if p <= t {
      assert forall i :: 0 <= i < |p| ==> t[i] == p[i] != '.';
    }
  }

  lemma {:induction false} TermAtHead(d: Dotted, candidate: seq<string>)
    requires WellFormed(d) && PointFree(candidate)
    ensures DottedText(d) <= Dots(candidate) <==> HeadLinesUp(d, candidate)
    decreases |d.exact|
  {
    if d.exact == [] {
      if d.partial.Some? && candidate != [] {
        PartialUpToPoint(d.partial.value, candidate[0], Dots(candidate[1..]));
      }
      assert "" + DottedText(d) == DottedText(d);
    } else if candidate == [] {
      assert |DottedText(d)| > 0;
    } else {
      var d' := Dotted(d.exact[1..], d.partial);
      TermAtHead(d', candidate[1..]);
      assert DottedText(d) == d.exact[0] + "." + DottedText(d');
      PrefixUpToPoint(d.exact[0], candidate[0], DottedText(d'), Dots(candidate[1..]));
      HeadLinesUpStep(d, candidate);
    }
  }

  lemma HeadLinesUpStep(d: Dotted, candidate: seq<string>)
    requires d.exact != [] && candidate != []
    ensures HeadLinesUp(d, candidate) <==>
              d.exact[0] == candidate[0] && HeadLinesUp(Dotted(d.exact[1..], d.partial), candidate[1..])
  {
    var es, cs := d.exact[1..], candidate[1..];
    if |d.exact| <= |candidate| {
      assert (forall i :: 0 <= i < |d.exact| ==> candidate[0 + i] == d.exact[i]) <==>
             candidate[0] == d.exact[0] && forall i :: 0 <= i < |es| ==> cs[0 + i] == es[i] by {
        assert forall i :: 1 <= i < |d.exact| ==> d.exact[i] == es[i - 1] && candidate[i] == cs[i - 1];
      }
    }
  }

  /** The places a term may be anchored are the starts of the octets, and the very end. */
  lemma {:induction false} AnchorsAreOctets(candidate: seq<string>, p: nat) returns (j: nat)
    requires PointFree(candidate) && p <= |Dots(candidate)| && (p == 0 || Dots(candidate)[p - 1] == '.')
    ensures j <= |candidate| && Dots(candidate)[p..] == Dots(candidate[j..])
  {
    if p == 0 {
      j := 0;
      assert candidate[0..] == candidate;
    } else {
      var n := |candidate[0]| + 1;
      var rest := Dots(candidate[1..]);
      assert Dots(candidate) == candidate[0] + "." + rest;
      assert forall i :: 0 <= i < n - 1 ==> Dots(candidate)[i] == candidate[0][i] != '.';
      assert p > n ==> Dots(candidate)[p - 1] == rest[p - n - 1];
      var k := AnchorsAreOctets(candidate[1..], p - n);
      j := k + 1;
      assert Dots(candidate)[p..] == rest[p - n..];
      assert candidate[1..][k..] == candidate[j..];
    }
  }

  lemma {:induction false} OctetsAreAnchors(candidate: seq<string>, j: nat) returns (p: nat)
    requires j <= |candidate|
    ensures p <= |Dots(candidate)| && Dots(candidate)[p..] == Dots(candidate[j..])
    ensures p == 0 || Dots(candidate)[p - 1] == '.'
  {
    if j == 0 {
      p := 0;
      assert candidate[0..] == candidate;
    } else {
      var q := OctetsAreAnchors(candidate[1..], j - 1);
      p := q + |candidate[0]| + 1;
      assert Dots(candidate) == candidate[0] + "." + Dots(candidate[1..]);
      assert candidate[1..][j - 1..] == candidate[j..];
    }
  }

  lemma LinesUpShifted(d: Dotted, candidate: seq<string>, start: nat)
    requires start + |d.exact| + (if d.partial.Some? then 1 else 0) <= |candidate|
    ensures LinesUp(d, candidate, start) <==> LinesUp(d, candidate[start..], 0)
  {
    var cs := candidate[start..];
    assert forall i :: 0 <= i < |cs| ==> cs[i] == candidate[start + i];
  }

  /** A term matches an address exactly when it occurs in the address followed by a point, at the
      start or right after a point. */
  lemma MatchingIsAnchoredOccurrence(term: string, address: string)
    requires DottedOf(term).Some?
    ensures DottedMatches(DottedOf(term).value, address) <==> exists p :: AnchoredAt(term, address + ".", p)
  {
    var d, candidate := DottedOf(term).value, T.Split(address, '.');
    var wanted := |d.exact| + (if d.partial.Some? then 1 else 0);
    OctetsSpellTheTerm(term);
    T.JoinSplit(address, '.');
    DotsOfJoin(candidate);
    hide DottedOf;
    assert wanted > 0 && term != "" by { assert term == "" ==> Dots(d.exact) == ""; DottedTermsAreNotEmpty(term); }
    if DottedMatches(d, address) {
      var start :| 0 <= start <= |candidate| - wanted && LinesUp(d, candidate, start);
      LinesUpShifted(d, candidate, start);
      TermAtHead(d, candidate[start..]);
      var p := OctetsAreAnchors(candidate, start);
      assert AnchoredAt(term, address + ".", p);
    }
    if exists p :: AnchoredAt(term, address + ".", p) {
      var p :| AnchoredAt(term, address + ".", p);
      var start := AnchorsAreOctets(candidate, p);
      TermAtHead(d, candidate[start..]);
      LinesUpShifted(d, candidate, start);
    }
  }

  lemma DottedTermsAreNotEmpty(term: string)
    requires DottedOf(term).Some?
    ensures term != "" && |DottedOf(term).value.exact| + (if DottedOf(term).value.partial.Some? then 1 else 0) > 0
  {
    PointMeansTwoParts(term);
  }

  /** Typing further only ever narrows what an address term matches. */
  lemma TypingNarrows(term: string, longer: string, address: string)
    requires term <= longer && DottedOf(term).Some? && DottedOf(longer).Some?
    requires DottedMatches(DottedOf(longer).value, address)
    ensures DottedMatches(DottedOf(term).value, address)
  {
    hide DottedOf, DottedMatches;
    MatchingIsAnchoredOccurrence(longer, address);
    MatchingIsAnchoredOccurrence(term, address);
    var p :| AnchoredAt(longer, address + ".", p);
    assert AnchoredAt(term, address + ".", p);
  }

  // ---- when a filter is sent ----

  /** Thirty-six characters, dashes at four places and hexadecimal digits everywhere else. */
  predicate LooksLikeUuid(term: string) {
    && |term| == 36
    && forall i :: 0 <= i < 36 ==>
         if i == 8 || i == 13 || i == 18 || i == 23 then term[i] == '-'
         else '0' <= term[i] <= '9' || 'a' <= term[i] <= 'f' || 'A' <= term[i] <= 'F'
  }

  function Groups(term: string): seq<string>
    requires |term| == 36
  {
    [term[..8], term[9..13], term[14..18], term[19..23], term[24..]]
  }

  predicate AreGroups(parts: seq<string>) {
    && |parts| == 5 && |parts[0]| == 8 && |parts[1]| == 4 && |parts[2]| == 4 && |parts[3]| == 4 && |parts[4]| == 12
    && forall i :: 0 <= i < 5 ==> T.All(parts[i], T.IsHexDigit)
  }

  lemma JoinFive(parts: seq<string>)
    requires |parts| == 5
    ensures T.Join(parts, '-') ==
              parts[0] + ['-'] + (parts[1] + ['-'] + (parts[2] + ['-'] + (parts[3] + ['-'] + parts[4])))
  {
    assert parts[1..][1..] == parts[2..] && parts[2..][1..] == parts[3..] && parts[3..][1..] == parts[4..];
    assert T.Join(parts[4..], '-') == parts[4];
    assert T.Join(parts[3..], '-') == parts[3] + ['-'] + parts[4];
    assert T.Join(parts[2..], '-') == parts[2] + ['-'] + T.Join(parts[3..], '-');
    assert T.Join(parts[1..], '-') == parts[1] + ['-'] + T.Join(parts[2..], '-');
    assert T.Join(parts, '-') == parts[0] + ['-'] + T.Join(parts[1..], '-');
    hide T.Join;
  }

  lemma GroupsJoin(parts: seq<string>, term: string)
    requires AreGroups(parts)
    requires term == parts[0] + ['-'] + (parts[1] + ['-'] + (parts[2] + ['-'] + (parts[3] + ['-'] + parts[4])))
    ensures LooksLikeUuid(term)
  {
    forall i | 0 <= i < 36
      ensures if i == 8 || i == 13 || i == 18 || i == 23 then term[i] == '-' else T.IsHexDigit(term[i])
    {
      if i < 8 { assert term[i] == parts[0][i]; }
      else if 8 < i < 13 { assert term[i] == parts[1][i - 9]; }
      else if 13 < i < 18 { assert term[i] == parts[2][i - 14]; }
      else if 18 < i < 23 { assert term[i] == parts[3][i - 19]; }
      else if 23 < i { assert term[i] == parts[4][i - 24]; }
    }
  }

  lemma UuidsAre(term: string)
    ensures IsUuid(term) <==> LooksLikeUuid(term)
  {
    if IsUuid(term) {
      var parts := T.Split(term, '-');
      T.JoinSplit(term, '-');
      GroupsOfUuid(term);
      JoinFive(parts);
      GroupsJoin(parts, term);
    }
    if LooksLikeUuid(term) {
      GroupsOfShape(term);
      var parts := Groups(term);
      JoinFive(parts);
      T.SplitJoin(parts, '-');
    }
  }

  lemma GroupsOfUuid(term: string)
    requires IsUuid(term)
    ensures AreGroups(T.Split(term, '-'))
  {
    hide T.IsHexDigit;
  }

  lemma GroupsOfShape(term: string)
    requires LooksLikeUuid(term)
    ensures var parts := Groups(term);
            && AreGroups(parts) && (forall i :: 0 <= i < 5 ==> '-' !in parts[i])
            && term == parts[0] + ['-'] + (parts[1] + ['-'] + (parts[2] + ['-'] + (parts[3] + ['-'] + parts[4])))
  {}

  /** A filter is sent exactly when the kind takes one, the term is something and no part of an address,
      and the kind filters on names, or on identifiers and the term is one whole. */
  lemma SentIff(params: ListParams, term: string)
    ensures Odata(params, term).Some? <==>
              && params.filter && term != "" && !IsAddressTerm(term)
              && ("name" in params.fields || ("extId" in params.fields && LooksLikeUuid(term)))
  {
    UuidsAre(term);
    AddressTermsAreDotted(term);
    hide IsUuid, LooksLikeUuid, DottedOf, IsAddressTerm, DoubleQuotes;
  }
}
