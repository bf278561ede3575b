/**
 * The fragment of Python's `re` module that the two phone patterns of the CRM
 * use: a pattern `^(B1|B2|...)$` whose branches are sequences of single-character
 * atoms (a literal or `\d`), each with a greedy repeat `{min,max}`.
 *
 * `MatchBranch` follows the regular-expression engine: a greedy repeat first
 * consumes as many characters as it may, then gives them back one at a time
 * until the rest of the branch matches. `MatchBranchStep` is the declarative
 * reading of the same thing, proved equal to it.
 */
module PyRegex {

  /** `\d`, for the ASCII digits. */
  predicate IsDigit(c: char) {
    '0' <= c <= '9'
  }

  predicate AllDigits(t: string) {
    forall i :: 0 <= i < |t| ==> IsDigit(t[i])
  }

  /** A single-character atom: a literal such as `\+` or `-`, or `\d`. */
  datatype Atom = Literal(c: char) | Digit

  predicate Accepts(a: Atom, c: char) {
    match a
    case Literal(l) => c == l
    case Digit => IsDigit(c)
  }

  /** `atom{min,max}`; `?` is `{0,1}` and a bare atom is `{1,1}`. */
  datatype Piece = Piece(atom: Atom, min: nat, max: nat)

  /** One alternative of the pattern, read left to right. */
  type Branch = seq<Piece>

  /** Every character of s[i..j] is accepted by the atom. */
  predicate AllAccepted(a: Atom, s: string, i: nat, j: nat)
    requires i <= j <= |s|
  {
    forall m :: i <= m < j ==> Accepts(a, s[m])
  }

  /**
   * Python's `$` without MULTILINE: the end of the string, or the position just
   * before a newline that ends the string.
   */
  predicate AtEnd(s: string, i: nat) {
    i == |s| || (i + 1 == |s| && s[i] == '\n')
  }

  /** How many characters a greedy repeat of the atom consumes from i, at most max. */
  function GreedyRun(a: Atom, s: string, i: nat, max: nat): (n: nat)
    requires i <= |s|
    ensures n <= max && i + n <= |s|
    ensures AllAccepted(a, s, i, i + n)
    ensures n < max && i + n < |s| ==> !Accepts(a, s[i + n])
    decreases max
  {
    if max == 0 || i == |s| || !Accepts(a, s[i]) then 0
    else 1 + GreedyRun(a, s, i + 1, max - 1)
  }

  /** No longer stretch of accepted characters fits within max. */
  lemma GreedyRunIsLongest(a: Atom, s: string, i: nat, max: nat, j: nat)
    requires i <= j <= |s| && j - i <= max && AllAccepted(a, s, i, j)
    ensures j - i <= GreedyRun(a, s, i, max)
    decreases max
  {
  }

  /** Whether the branch matches s from position i up to a `$` position. */
  function MatchBranch(ps: Branch, s: string, i: nat): bool
    requires i <= |s|
    decreases |ps|, 1
  {
    if ps == [] then AtEnd(s, i)
    else Backtrack(ps, s, i, GreedyRun(ps[0].atom, s, i, ps[0].max))
  }

  /** The first piece takes k characters, then k - 1, ..., down to its minimum. */
  function Backtrack(ps: Branch, s: string, i: nat, k: nat): bool
    requires ps != [] && i + k <= |s|
    decreases |ps|, 0, k
  {
    if k < ps[0].min then false
    else MatchBranch(ps[1..], s, i + k) || (k > ps[0].min && Backtrack(ps, s, i, k - 1))
  }

  /** `re.match(pattern, s)` succeeds, for the pattern `^(alts[0]|alts[1]|...)$`. */
  function Match(alts: seq<Branch>, s: string): bool
  {
    alts != [] && (MatchBranch(alts[0], s, 0) || Match(alts[1..], s))
  }

  /** The piece p can consume exactly s[i..j]. */
  predicate Consumes(p: Piece, s: string, i: nat, j: nat) {
    i <= j <= |s| && p.min <= j - i <= p.max && AllAccepted(p.atom, s, i, j)
  }

  lemma {:induction false} BacktrackIff(ps: Branch, s: string, i: nat, k: nat)
    requires ps != [] && i + k <= |s|
    ensures Backtrack(ps, s, i, k) <==>
            exists j :: i + ps[0].min <= j <= i + k && MatchBranch(ps[1..], s, j)
    decreases k
  {
    if k >= ps[0].min {
      if k > ps[0].min {
        BacktrackIff(ps, s, i, k - 1);
      }
      if MatchBranch(ps[1..], s, i + k) {
        var j: nat := i + k;
        assert exists j :: i + ps[0].min <= j <= i + k && MatchBranch(ps[1..], s, j);
      } else if !Backtrack(ps, s, i, k) {
        forall j | i + ps[0].min <= j <= i + k ensures !MatchBranch(ps[1..], s, j) {
          if j < i + k {
            assert i + ps[0].min <= j <= i + (k - 1);
          }
        }
      }
    }
  }

  /**
   * The engine's answer agrees with the declarative one: a branch matches iff its
   * first piece can consume some s[i..j] after which the rest of the branch matches.
   */
  lemma {:induction false} MatchBranchStep(ps: Branch, s: string, i: nat)
    requires ps != [] && i <= |s|
    ensures MatchBranch(ps, s, i) <==>
            exists j :: Consumes(ps[0], s, i, j) && MatchBranch(ps[1..], s, j)
  {
    var p := ps[0];
    var n := GreedyRun(p.atom, s, i, p.max);
    BacktrackIff(ps, s, i, n);
    if MatchBranch(ps, s, i) {
      var j :| i + p.min <= j <= i + n && MatchBranch(ps[1..], s, j);
      assert Consumes(p, s, i, j);
    } else {
      forall j: nat | Consumes(p, s, i, j) ensures !MatchBranch(ps[1..], s, j) {
        GreedyRunIsLongest(p.atom, s, i, p.max, j);
      }
    }
  }

  /** A pattern with a single alternative matches iff that branch matches. */
  lemma MatchSingle(b: Branch, s: string)
    ensures Match([b], s) == MatchBranch(b, s, 0)
  {
  }

  /** The empty branch only asks for `$`. */
  lemma MatchEmpty(s: string, i: nat)
    requires i <= |s|
    ensures MatchBranch([], s, i) == AtEnd(s, i)
  {
  }

  /** `Match` tries the alternatives in order and succeeds iff one of them matches. */
  lemma {:induction false} MatchAny(alts: seq<Branch>, s: string)
    ensures Match(alts, s) <==> exists b :: b in alts && MatchBranch(b, s, 0)
  {
    if alts != [] {
      MatchAny(alts[1..], s);
      if MatchBranch(alts[0], s, 0) {
        assert alts[0] in alts;
      } else if Match(alts[1..], s) {
        var b :| b in alts[1..] && MatchBranch(b, s, 0);
        assert b in alts;
      } else {
        forall b | b in alts ensures !MatchBranch(b, s, 0) {
          if b != alts[0] {
            assert b in alts[1..];
          }
        }
      }
    }
  }

  predicate EndsWithNewline(s: string) {
    |s| > 0 && s[|s| - 1] == '\n'
  }

  /** The texts a pattern ending in `$` may cover: s itself, or s without its final newline. */
  function DollarPrefixes(s: string): (ts: set<string>)
    ensures s in ts
  {
    if EndsWithNewline(s) then {s, s[..|s| - 1]} else {s}
  }

  /** `$` holds at j exactly when s[..j] is one of the texts `$` lets a match cover. */
  lemma AtEndIff(s: string, j: nat)
    requires j <= |s|
    ensures AtEnd(s, j) <==> s[..j] in DollarPrefixes(s)
  {
    if j == |s| {
      assert s[..j] == s;
    } else if s[..j] in DollarPrefixes(s) {
      assert s[..j] == s[..|s| - 1];
    }
  }

  lemma AllAcceptedDigits(s: string, i: nat, j: nat)
    requires i <= j <= |s|
    ensures AllAccepted(Digit, s, i, j) <==> AllDigits(s[i..j])
  {
    if AllDigits(s[i..j]) {
      forall m | i <= m < j ensures Accepts(Digit, s[m]) {
        assert s[m] == s[i..j][m - i];
      }
    }
  }

  /**
   * A maximal run of accepted characters: when s[i..j] is accepted and the
   * character at j is not (or j is the end), the greedy run from i stops at j.
   */
  lemma GreedyRunStops(a: Atom, s: string, i: nat, j: nat)
    requires i <= j <= |s| && AllAccepted(a, s, i, j)
    requires j < |s| ==> !Accepts(a, s[j])
    ensures GreedyRun(a, s, i, |s| - i) == j - i
  {
  }
}
