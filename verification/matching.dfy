/**
  The regular-expression engine, kept abstract. A finder plays the part of a
  `java.util.regex.Matcher` driven by repeated `find()` calls: it returns,
  for a text, the list of matches in the order `find()` reports them.
 */
module Matching {
  import opened Options

  /** The half-open index range `[start, end)`. */
  datatype Span = Span(start: nat, end: nat)

  /**
    One successful `find()`: the range of `group()` and, for every capture
    group `k`, the range of `group(k)` (`None` when the group did not
    participate). Entry 0 is the whole match.
   */
  datatype Match = Match(whole: Span, groups: seq<Option<Span>>)

  type Finder = string -> seq<Match>

  predicate Within(inner: Span, outer: Span) {
    outer.start <= inner.start <= inner.end <= outer.end
  }

  /**
    A match of `t` whose capture group `group` exists in the pattern, whose
    group 0 is the whole match, and whose groups all lie inside the match.
   */
  predicate WellFormedMatch(t: string, m: Match, group: nat) {
    && m.whole.start <= m.whole.end <= |t|
    && group < |m.groups|
    && m.groups[0] == Some(m.whole)
    && forall j | 0 <= j < |m.groups| && m.groups[j].Some? :: Within(m.groups[j].value, m.whole)
  }

  /** What successive `find()` calls deliver: well-formed matches, left to right, not overlapping. */
  predicate WellFormedMatches(t: string, ms: seq<Match>, group: nat) {
    && (forall i | 0 <= i < |ms| :: WellFormedMatch(t, ms[i], group))
    && (forall i, j | 0 <= i < j < |ms| :: ms[i].whole.end <= ms[j].whole.start)
  }

  /** A finder that behaves like `Matcher.find()` on every text, for capture group `group`. */
  ghost predicate ValidFinder(f: Finder, group: nat) {
    forall t: string :: WellFormedMatches(t, f(t), group)
  }
}
