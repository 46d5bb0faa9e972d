/**
 * `isValidEmail` (script.js:296-299): the test of the trimmed email field against
 * the pattern `^[^\s@]+@[^\s@]+\.[^\s@]+$`.
 *
 * The test is written here as a left-to-right automaton over the characters
 * (`Run`) that accepts the same language as the pattern. What the pattern
 * means is stated twice, declaratively: `MatchesPattern` reads it piece by piece,
 * `EmailShape` says it in terms of the string as a whole (one '@' with text
 * before it, a '.' inside the part after it, no whitespace). The lemmas prove
 * all three agree on every string.
 */
module Email {
  import opened JsText

  /** The class `[^\s@]`. */
  predicate PlainChar(c: char) {
    !IsWhitespace(c) && c != '@'
  }

  predicate AllPlain(s: string) {
    forall i :: 0 <= i < |s| ==> PlainChar(s[i])
  }

  // ---------------------------------------------------------------------------
  // The automaton

  /** How much of the pattern the characters read so far have matched. */
  datatype Scan =
    | Start      // nothing read
    | Local      // one or more plain characters, no '@' yet
    | AfterAt    // the local part and the '@'
    | Domain     // at least one character after '@', no usable '.' yet
    | DomainDot  // ... and the last character is the first usable '.'
    | Accepted   // a usable '.' with at least one character after it
    | Rejected   // no continuation can match

  function Step(st: Scan, c: char): Scan {
    if !PlainChar(c) then
      if c == '@' && st == Local then AfterAt else Rejected
    else
      match st
      case Start => Local
      case Local => Local
      case AfterAt => Domain
      case Domain => if c == '.' then DomainDot else Domain
      case DomainDot => Accepted
      case Accepted => Accepted
      case Rejected => Rejected
  }

  function Run(s: string): Scan {
    if s == [] then Start else Step(Run(s[..|s| - 1]), s[|s| - 1])
  }

  /** `isValidEmail(email)`: the regular expression's `test`. */
  predicate IsValidEmail(s: string) {
    Run(s) == Accepted
  }

  // ---------------------------------------------------------------------------
  // What the pattern means

  /** The pattern read piece by piece: a run of plain characters, '@', a run of
      plain characters, '.', a run of plain characters, and nothing else. */
  ghost predicate MatchesPattern(s: string) {
    exists p, q :: 0 < p && p + 1 < q && q + 1 < |s|
      && AllPlain(s[..p]) && s[p] == '@' && AllPlain(s[p + 1..q]) && s[q] == '.' && AllPlain(s[q + 1..])
  }

  /** The '@' at index `p` is the only '@' in `s`, and something comes before it. */
  predicate SoleAt(s: string, p: int) {
    0 < p < |s| && s[p] == '@' && forall k :: 0 <= k < |s| && k != p ==> s[k] != '@'
  }

  /** Some '.' after the '@' at index `p` is neither the first nor the last character of the domain. */
  ghost predicate InnerDot(s: string, p: int) {
    exists q :: 0 <= p && p + 1 < q < |s| - 1 && s[q] == '.'
  }

  /** The shape as a whole: exactly one '@' with a non-empty local part before it,
      a domain containing a '.' that is neither its first nor its last character,
      and no whitespace anywhere. */
  ghost predicate EmailShape(s: string) {
    (forall k :: 0 <= k < |s| ==> !IsWhitespace(s[k]))
    && exists p :: SoleAt(s, p) && InnerDot(s, p)
  }

  // ---------------------------------------------------------------------------
  // What each state of the automaton says about the characters read

  /** Index `p` holds the '@', something precedes it, every other character is plain. */
  predicate AtOk(s: string, p: int) {
    0 < p < |s| && s[p] == '@' && forall k :: 0 <= k < |s| && k != p ==> PlainChar(s[k])
  }

  predicate NoDot(s: string, lo: int, hi: int)
    requires 0 <= lo && hi <= |s|
  {
    forall q :: lo <= q < hi ==> s[q] != '.'
  }

  predicate DomainAt(s: string, p: int) {
    AtOk(s, p) && p < |s| - 1 && NoDot(s, p + 2, |s|)
  }

  predicate DomainDotAt(s: string, p: int) {
    AtOk(s, p) && p + 2 < |s| && s[|s| - 1] == '.' && NoDot(s, p + 2, |s| - 1)
  }

  ghost predicate AcceptAt(s: string, p: int) {
    AtOk(s, p) && InnerDot(s, p)
  }

  /** Whitespace somewhere, an '@' first, or two '@'s. */
  ghost predicate Bad(s: string) {
    (exists k :: 0 <= k < |s| && IsWhitespace(s[k]))
    || (|s| > 0 && s[0] == '@')
    || (exists j, k :: 0 <= j < k < |s| && s[j] == '@' && s[k] == '@')
  }

  ghost predicate InState(s: string, st: Scan) {
    match st
    case Start => s == []
    case Local => |s| > 0 && AllPlain(s)
    case AfterAt => AtOk(s, |s| - 1)
    case Domain => exists p :: DomainAt(s, p)
    case DomainDot => exists p :: DomainDotAt(s, p)
    case Accepted => exists p :: AcceptAt(s, p)
    case Rejected => Bad(s)
  }

  lemma StepInState(t: string, c: char, st: Scan)
    requires InState(t, st)
    ensures InState(t + [c], Step(st, c))
  {
    var s := t + [c];
    assert forall k :: 0 <= k < |t| ==> s[k] == t[k];
    if !PlainChar(c) {
      if c == '@' && st == Local {
        assert AtOk(s, |t|);
      } else if IsWhitespace(c) {
        assert IsWhitespace(s[|t|]);
      } else {
        match st
        case Start =>
          assert s[0] == '@';
        case Local =>
        case AfterAt =>
          assert s[|t| - 1] == '@' && s[|t|] == '@';
        case Domain =>
          var p :| DomainAt(t, p);
          assert s[p] == '@' && s[|t|] == '@';
        case DomainDot =>
          var p :| DomainDotAt(t, p);
          assert s[p] == '@' && s[|t|] == '@';
        case Accepted =>
          var p :| AcceptAt(t, p);
          assert s[p] == '@' && s[|t|] == '@';
        case Rejected =>
          if k :| 0 <= k < |t| && IsWhitespace(t[k]) {
            assert IsWhitespace(s[k]);
          } else if |t| > 0 && t[0] == '@' {
            assert s[0] == '@';
          } else {
            var j, k :| 0 <= j < k < |t| && t[j] == '@' && t[k] == '@';
            assert s[j] == '@' && s[k] == '@';
          }
      }
    } else {
      match st
      case Start =>
      case Local =>
      case AfterAt =>
        assert DomainAt(s, |t| - 1);
      case Domain =>
        var p :| DomainAt(t, p);
        if c == '.' {
          assert DomainDotAt(s, p);
        } else {
          assert DomainAt(s, p);
        }
      case DomainDot =>
        var p :| DomainDotAt(t, p);
        assert s[|t| - 1] == '.';
        assert AcceptAt(s, p);
      case Accepted =>
        var p :| AcceptAt(t, p);
        var q :| p + 1 < q < |t| - 1 && t[q] == '.';
        assert s[q] == '.';
        assert AcceptAt(s, p);
      case Rejected =>
        if k :| 0 <= k < |t| && IsWhitespace(t[k]) {
          assert IsWhitespace(s[k]);
        } else if |t| > 0 && t[0] == '@' {
          assert s[0] == '@';
        } else {
          var j, k :| 0 <= j < k < |t| && t[j] == '@' && t[k] == '@';
          assert s[j] == '@' && s[k] == '@';
        }
    }
  }

  /** Every state the automaton reaches describes the characters it has read. */
  lemma {:induction false} RunInState(s: string)
    ensures InState(s, Run(s))
  {
    if s != [] {
      var t := s[..|s| - 1];
      RunInState(t);
      StepInState(t, s[|s| - 1], Run(t));
      assert t + [s[|s| - 1]] == s;
    }
  }

  /** No state other than Accepted describes a string of the right shape. */
  lemma OnlyAcceptedAccepts(s: string, st: Scan, p: int)
    requires InState(s, st) && AcceptAt(s, p)
    ensures st == Accepted
  {
    var q :| p + 1 < q < |s| - 1 && s[q] == '.';
    match st
    case Start =>
    case Local =>
    case AfterAt =>
    case Domain =>
    case DomainDot =>
    case Accepted =>
    case Rejected =>
  }

  lemma AcceptAtIffShape(s: string)
    ensures (exists p :: AcceptAt(s, p)) <==> EmailShape(s)
  {
    if p :| AcceptAt(s, p) {
      assert SoleAt(s, p);
    }
    if EmailShape(s) {
      var p :| SoleAt(s, p) && InnerDot(s, p);
      assert AcceptAt(s, p);
    }
  }

  /** `isValidEmail(s)` holds exactly when `s` has one '@' with a non-empty local
      part before it, a '.' inside the domain after it that is neither the
      domain's first nor its last character, and no whitespace anywhere. */
  lemma {:induction false} IsValidEmailIffShape(s: string)
    ensures IsValidEmail(s) <==> EmailShape(s)
  {
    RunInState(s);
    AcceptAtIffShape(s);
    if EmailShape(s) {
      var p :| AcceptAt(s, p);
      OnlyAcceptedAccepts(s, Run(s), p);
    }
  }

  lemma ShapeIffPattern(s: string)
    ensures EmailShape(s) <==> MatchesPattern(s)
  {
    AcceptAtIffShape(s);
    if p :| AcceptAt(s, p) {
      var q :| p + 1 < q < |s| - 1 && s[q] == '.';
      assert AllPlain(s[..p]) && AllPlain(s[p + 1..q]) && AllPlain(s[q + 1..]);
    }
    if MatchesPattern(s) {
      var p, q :| 0 < p && p + 1 < q && q + 1 < |s|
        && AllPlain(s[..p]) && s[p] == '@' && AllPlain(s[p + 1..q]) && s[q] == '.' && AllPlain(s[q + 1..]);
      forall k | 0 <= k < |s| && k != p
        ensures PlainChar(s[k])
      {
        if k < p { assert s[k] == s[..p][k]; }
        else if k < q { assert s[k] == s[p + 1..q][k - p - 1]; }
        else if k > q { assert s[k] == s[q + 1..][k - q - 1]; }
      }
      assert AcceptAt(s, p);
    }
  }

  /** `isValidEmail` decides exactly the language of its regular expression. */
  lemma IsValidEmailIffPattern(s: string)
    ensures IsValidEmail(s) <==> MatchesPattern(s)
  {
    IsValidEmailIffShape(s);
    ShapeIffPattern(s);
  }

  /** The address used as the valid example of the validation rules. */
  lemma AcceptedExample()
    ensures IsValidEmail("a@b.co")
  {
    IsValidEmailIffShape("a@b.co");
    assert SoleAt("a@b.co", 1) && "a@b.co"[3] == '.';
  }

  /** Without a '.' after the '@' the address is refused. */
  lemma NoDotRejected()
    ensures !IsValidEmail("a@b")
  {
    IsValidEmailIffShape("a@b");
  }

  /** An empty local part is refused. */
  lemma EmptyLocalRejected()
    ensures !IsValidEmail("@b.co")
  {
    IsValidEmailIffShape("@b.co");
  }

  /** A '.' straight after the '@' does not count as the domain's dot. */
  lemma LeadingDotRejected()
    ensures !IsValidEmail("a@.co")
  {
    IsValidEmailIffShape("a@.co");
    // The only '@' is at index 1, so the '.' at index 2 opens the domain.
    assert SoleAt("a@.co", 1);
  }

  /** Whitespace inside the address is refused. */
  lemma InnerSpaceRejected()
    ensures !IsValidEmail("a b@c.d")
  {
    IsValidEmailIffShape("a b@c.d");
    assert IsWhitespace("a b@c.d"[1]);
  }

  /** A second '@' is refused. */
  lemma TwoAtsRejected()
    ensures !IsValidEmail("a@b@c.d")
  {
    IsValidEmailIffShape("a@b@c.d");
    assert "a@b@c.d"[1] == '@' && "a@b@c.d"[3] == '@';
  }
}
