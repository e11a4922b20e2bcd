/**
 * The split of a content file into its YAML header and its markdown body. The
 * source finds both with regular expressions:
 *   header: (?s)(?<=---\n).*(?=\n---)
 *   body:   (?s)(?<=\n---).*
 * Here each is an explicit substring search, proved to pick the same span as a
 * regex engine does: the leftmost start, and the longest match from that start
 * (`.*` is greedy and, under (?s), also matches newlines).
 */
module Sections {
  import opened Wrappers
  import opened Text

  /** The delimiter that the header's lookbehind requires just before it. */
  const Open: string := "---\n"
  /** The delimiter that the header's lookahead (and the body's lookbehind) requires. */
  const Close: string := "\n---"

  /** [p, q) is a match of the header regex in `t`: "---\n" ends at p and "\n---" starts at q. */
  predicate HeaderMatch(t: string, p: nat, q: nat) {
    4 <= p <= q && IsAt(t, Open, p - 4) && IsAt(t, Close, q)
  }

  /** [p, q) is the match a regex engine reports: the leftmost start, then the longest. */
  ghost predicate ReportedHeader(t: string, p: nat, q: nat) {
    && HeaderMatch(t, p, q)
    && forall p': nat, q': nat :: HeaderMatch(t, p', q') ==> p < p' || (p == p' && q' <= q)
  }

  /**
   * The header span: from just past the first "---\n" to the last "\n---" that
   * starts at or after that point; none when no such "\n---" exists.
   */
  function HeaderSpan(t: string): (r: Option<(nat, nat)>)
    ensures r.Some? ==> ReportedHeader(t, r.value.0, r.value.1)
    ensures r.None? <==> forall p: nat, q: nat :: !HeaderMatch(t, p, q)
  {
    match FindFirst(t, Open, 0)
    case None => None
    case Some(o) =>
      match FindLast(t, Close, o + 4)
      case None => None
      case Some(q) => Some((o + 4, q))
  }

  /** The body regex matches from b to the end of `t`: "\n---" ends at b. */
  predicate BodyMatch(t: string, b: nat) {
    4 <= b && IsAt(t, Close, b - 4)
  }

  /** Where the body starts: just past the first "\n---" anywhere in the file. */
  function BodyStart(t: string): (r: Option<nat>)
    ensures r.Some? ==> BodyMatch(t, r.value) && r.value <= |t|
    ensures r.Some? ==> forall b: nat :: BodyMatch(t, b) ==> r.value <= b
    ensures r.None? <==> forall b: nat :: !BodyMatch(t, b)
  {
    match FindFirst(t, Close, 0)
    case None => None
    case Some(i) => assert BodyMatch(t, i + 4); Some(i + 4)
  }

  function Header(t: string): string
    requires HeaderSpan(t).Some?
  {
    t[HeaderSpan(t).value.0..HeaderSpan(t).value.1]
  }

  function Body(t: string): string
    requires BodyStart(t).Some?
  {
    t[BodyStart(t).value..]
  }

  /**
   * Whenever a header exists a body exists too, starting no later than just past
   * the header's closing "\n---": the inner `if let` never drops a file.
   */
  lemma HeaderImpliesBody(t: string)
    requires HeaderSpan(t).Some?
    ensures BodyStart(t).Some? && BodyStart(t).value <= HeaderSpan(t).value.1 + 4
  {
    var (p, q) := HeaderSpan(t).value;
    assert BodyMatch(t, q + 4);
  }

  /**
   * A file "---\n" + h + "\n---" + b in which that closing "\n---" is the only one
   * splits into the header h and the body b.
   */
  lemma {:induction false} SplitWellFormed(h: string, b: string)
    requires var t := Open + h + Close + b;
      forall j :: IsAt(t, Close, j) ==> j == 4 + |h|
    ensures var t := Open + h + Close + b;
      && HeaderSpan(t).Some? && Header(t) == h
      && BodyStart(t).Some? && Body(t) == b
  {
    var t := Open + h + Close + b;
    assert IsAt(t, Open, 0) by { assert t[0..4] == Open; }
    assert IsAt(t, Close, 4 + |h|) by { assert t[4 + |h|..8 + |h|] == Close; }
    assert HeaderMatch(t, 4, 4 + |h|);
    var (p, q) := HeaderSpan(t).value;
    assert p == 4 && q == 4 + |h|;
    assert t[4..4 + |h|] == h;
    assert BodyMatch(t, 8 + |h|);
    assert t[8 + |h|..] == b;
  }

  /** "---\n---\n..." has no header: the second "---" line is not preceded by "\n" past the opener. */
  lemma AdjacentDelimitersGiveNoHeader(t: string)
    requires t == "---\n---\nfoo"
    ensures HeaderSpan(t).None?
  {
    forall q | 4 <= q ensures !IsAt(t, Close, q) {
      if q + 4 <= |t| {
        assert t[q + 1] != '-' || t[q] != '\n';
      }
    }
    forall p, q ensures !HeaderMatch(t, p, q) {
      if 4 <= p <= q { assert !IsAt(t, Close, q); }
    }
  }

  /** The span a regex engine reports is unique, so it pins down `HeaderSpan`. */
  lemma ReportedHeaderIsSpan(t: string, p: nat, q: nat)
    requires ReportedHeader(t, p, q)
    ensures HeaderSpan(t) == Some((p, q))
  {
  }

  /**
   * The greedy `.*` runs to the LAST "\n---": a horizontal rule in the body is
   * swallowed into the header.
   */
  lemma GreedyHeaderSwallowsRule(t: string)
    requires t == "---\na: 1\n---\nx\n---\ny"
    ensures HeaderSpan(t).Some? && Header(t) == "a: 1\n---\nx"
  {
    assert IsAt(t, Open, 0) by { assert t[0..4] == Open; }
    assert IsAt(t, Close, 14) by { assert t[14..18] == Close; }
    NoCloseAfterRule(t);
    ReportedHeaderIsSpan(t, 4, 14);
    assert t[4..14] == "a: 1\n---\nx";
  }

  /** In that file no "\n---" starts after the rule's newline at index 14. */
  lemma NoCloseAfterRule(t: string)
    requires t == "---\na: 1\n---\nx\n---\ny"
    ensures forall q: nat :: 14 < q ==> !IsAt(t, Close, q)
  {
    forall q: nat | 14 < q ensures !IsAt(t, Close, q) {
      if q + 4 <= |t| {
        assert t[q] == '-';
        assert t[q..q + 4][0] == t[q];
      }
    }
  }
}
