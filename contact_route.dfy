/**
 * The contact endpoint (`POST /api/contact`): a required-field check, an
 * e-mail shape check by regular expression, and a fixed placeholder reply.
 */
module ContactRoute {
  import opened Wrappers

  const RequiredMessage := "Todos os campos são obrigatórios"
  const InvalidEmailMessage := "E-mail inválido"
  const PlaceholderMessage := "EM DESENVOLVIMENTO"

  datatype Body = ErrorBody(error: string) | MessageBody(message: string)
  datatype Reply = Reply(status: int, body: Body)

  /** JavaScript truthiness of a string field: absent (undefined) and "" are both false. */
  predicate Filled(field: Option<string>) {
    field.Some? && field.value != ""
  }

  /**
   * The regular-expression class `\s`: the ECMAScript WhiteSpace and
   * LineTerminator code points.
   */
  predicate IsSpace(c: char) {
    c == '\t' || c == '\n' || c == '\U{000B}' || c == '\U{000C}' || c == '\r' || c == ' '
    || c == '\U{00A0}' || c == '\U{1680}' || ('\U{2000}' <= c <= '\U{200A}')
    || c == '\U{2028}' || c == '\U{2029}' || c == '\U{202F}' || c == '\U{205F}'
    || c == '\U{3000}' || c == '\U{FEFF}'
  }

  /** The regular-expression class `[^\s@]`. */
  predicate Allowed(c: char) {
    !IsSpace(c) && c != '@'
  }

  /** Every character of s[lo..hi] is in `[^\s@]`. */
  ghost predicate AllAllowed(s: string, lo: int, hi: int) {
    forall k :: lo <= k < hi && 0 <= k < |s| ==> Allowed(s[k])
  }

  /**
   * What `/^[^\s@]+@[^\s@]+\.[^\s@]+$/` denotes: s splits at an `@` (index i)
   * and a `.` (index j) into three non-empty runs of `[^\s@]`.
   */
  ghost predicate Pattern(s: string) {
    exists i, j :: 0 < i && i + 1 < j < |s| - 1 && s[i] == '@' && s[j] == '.'
      && AllAllowed(s, 0, i) && AllAllowed(s, i + 1, j) && AllAllowed(s, j + 1, |s|)
  }

  /** The domain part has a `.` that is neither its first nor its last character. */
  ghost predicate InnerDot(d: string) {
    exists k :: 0 < k < |d| - 1 && d[k] == '.'
  }

  /**
   * The structural reading of the pattern: exactly one `@`, no whitespace,
   * a non-empty part before the `@` and an inner `.` in the part after it.
   */
  ghost predicate Structural(s: string) {
    multiset(s)['@'] == 1
    && (forall k :: 0 <= k < |s| ==> !IsSpace(s[k]))
    && exists i :: 0 <= i < |s| && s[i] == '@' && |s[..i]| > 0 && InnerDot(s[i + 1..])
  }

  /**
   * The states of a matcher for the pattern: the local part (empty, then
   * non-empty), the domain before its first inner `.` (empty, then non-empty),
   * that `.` just read, the final run after it, and rejection.
   */
  datatype Phase = LocalStart | Local | DomainStart | Domain | Dot | Tail | Dead

  function Step(p: Phase, c: char): Phase {
    match p
    case LocalStart => if Allowed(c) then Local else Dead
    case Local => if c == '@' then DomainStart else if Allowed(c) then Local else Dead
    case DomainStart => if Allowed(c) then Domain else Dead
    case Domain => if c == '.' then Dot else if Allowed(c) then Domain else Dead
    case Dot => if Allowed(c) then Tail else Dead
    case Tail => if Allowed(c) then Tail else Dead
    case Dead => Dead
  }

  /** The phase reached from p after reading s[n..]. */
  function Run(p: Phase, s: string, n: nat): Phase
    requires n <= |s|
    decreases |s| - n
  {
    if n == |s| then p else Run(Step(p, s[n]), s, n + 1)
  }

  /** `emailRegex.test(email)`: the whole string is consumed ending in the accepting phase. */
  function Matches(s: string): bool {
    Run(LocalStart, s, 0) == Tail
  }

  /** s[n..] has a `.` that is not its last character. */
  ghost predicate DotBeforeEnd(s: string, n: nat) {
    exists k :: n <= k < |s| - 1 && s[k] == '.'
  }

  /** s[n..] is a domain part: a character of `[^\s@]`, then a run with a `.` before its end. */
  ghost predicate DomainFrom(s: string, n: int) {
    0 <= n < |s| && Allowed(s[n]) && AllAllowed(s, n + 1, |s|) && DotBeforeEnd(s, n + 1)
  }

  /** s[n..] is a run of `[^\s@]`, an `@` and a domain part. */
  ghost predicate AddressFrom(s: string, n: nat) {
    exists i :: n <= i < |s| && s[i] == '@' && AllAllowed(s, n, i) && DomainFrom(s, i + 1)
  }

  /** What s[n..] must look like to be accepted from phase p. */
  ghost predicate AcceptsFrom(p: Phase, s: string, n: nat)
    requires n <= |s|
  {
    match p
    case Tail => AllAllowed(s, n, |s|)
    case Dot => n < |s| && AllAllowed(s, n, |s|)
    case Domain => AllAllowed(s, n, |s|) && DotBeforeEnd(s, n)
    case DomainStart => DomainFrom(s, n)
    case Local => AddressFrom(s, n)
    case LocalStart => n < |s| && Allowed(s[n]) && AddressFrom(s, n + 1)
    case Dead => false
  }

  /** One step of the matcher preserves what the rest of the input must satisfy. */
  lemma StepAccepts(p: Phase, s: string, n: nat)
    requires n < |s|
    ensures AcceptsFrom(Step(p, s[n]), s, n + 1) <==> AcceptsFrom(p, s, n)
  {
    match p
    case Local =>
      if AcceptsFrom(p, s, n) && s[n] != '@' {
        var i :| n <= i < |s| && s[i] == '@' && AllAllowed(s, n, i) && DomainFrom(s, i + 1);
        assert i != n;
      }
    case LocalStart =>
    case _ =>
  }

  lemma {:induction false} RunAccepts(p: Phase, s: string, n: nat)
    requires n <= |s|
    ensures Run(p, s, n) == Tail <==> AcceptsFrom(p, s, n)
    decreases |s| - n
  {
    if n < |s| {
      StepAccepts(p, s, n);
      RunAccepts(Step(p, s[n]), s, n + 1);
    }
  }

  /** The matcher accepts exactly the strings the regular expression denotes. */
  lemma MatchesIffPattern(s: string)
    ensures Matches(s) <==> Pattern(s)
  {
    RunAccepts(LocalStart, s, 0);
    if Pattern(s) {
      var i, j :| 0 < i && i + 1 < j < |s| - 1 && s[i] == '@' && s[j] == '.'
        && AllAllowed(s, 0, i) && AllAllowed(s, i + 1, j) && AllAllowed(s, j + 1, |s|);
      assert Allowed(s[j]);
      assert AcceptsFrom(LocalStart, s, 0);
    }
  }

  /** A string with exactly one `@`, at index i. */
  lemma SingleAt(s: string, i: nat)
    requires i < |s| && s[i] == '@'
    requires forall m :: 0 <= m < |s| && m != i ==> s[m] != '@'
    ensures multiset(s)['@'] == 1
  {
    var a, b := s[..i], s[i + 1..];
    assert s == a + [s[i]] + b;
    assert '@' !in a by { forall m | 0 <= m < |a| ensures a[m] != '@' { assert a[m] == s[m]; } }
    assert '@' !in b by { forall m | 0 <= m < |b| ensures b[m] != '@' { assert b[m] == s[i + 1 + m]; } }
    assert multiset(s) == multiset(a) + multiset{'@'} + multiset(b);
  }

  /** In a string with exactly one `@`, every other index holds something else. */
  lemma OnlyAt(s: string, i: nat)
    requires i < |s| && s[i] == '@' && multiset(s)['@'] == 1
    ensures forall m :: 0 <= m < |s| && m != i ==> s[m] != '@'
  {
    var a, b := s[..i], s[i + 1..];
    assert s == a + [s[i]] + b;
    assert multiset(s) == multiset(a) + multiset{'@'} + multiset(b);
    assert '@' !in multiset(a) && '@' !in multiset(b);
    forall m | 0 <= m < |s| && m != i ensures s[m] != '@' {
      if m < i { assert s[m] == a[m]; } else { assert s[m] == b[m - i - 1]; }
    }
  }

  /** Each address the pattern denotes has the structural shape. */
  lemma PatternIsStructural(s: string)
    requires Pattern(s)
    ensures Structural(s)
  {
    var i, j :| 0 < i && i + 1 < j < |s| - 1 && s[i] == '@' && s[j] == '.'
      && AllAllowed(s, 0, i) && AllAllowed(s, i + 1, j) && AllAllowed(s, j + 1, |s|);
    forall m | 0 <= m < |s| && m != i ensures Allowed(s[m]) {
      if m == j { assert Allowed('.'); }
    }
    SingleAt(s, i);
    assert !IsSpace('@');
    assert InnerDot(s[i + 1..]) by { assert s[i + 1..][j - i - 1] == '.'; }
  }

  /** Each address of the structural shape is denoted by the pattern. */
  lemma StructuralIsPattern(s: string)
    requires Structural(s)
    ensures Pattern(s)
  {
    var i :| 0 <= i < |s| && s[i] == '@' && |s[..i]| > 0 && InnerDot(s[i + 1..]);
    var k :| 0 < k < |s[i + 1..]| - 1 && s[i + 1..][k] == '.';
    OnlyAt(s, i);
    var j := i + 1 + k;
    assert s[j] == '.';
    assert AllAllowed(s, 0, i) && AllAllowed(s, i + 1, j) && AllAllowed(s, j + 1, |s|);
  }

  /** The pattern is equivalent to its structural reading. */
  lemma PatternIffStructural(s: string)
    ensures Pattern(s) <==> Structural(s)
  {
    if Pattern(s) { PatternIsStructural(s); }
    if Structural(s) { StructuralIsPattern(s); }
  }

  /**
   * The handler: the presence check on all three fields comes first, then the
   * e-mail pattern, then the fixed placeholder reply.
   */
  function Post(name: Option<string>, email: Option<string>, message: Option<string>): (r: Reply)
    ensures r.status == 200 || r.status == 400
    ensures !(Filled(name) && Filled(email) && Filled(message)) ==> r == Reply(400, ErrorBody(RequiredMessage))
    ensures Filled(name) && Filled(email) && Filled(message) && !Structural(email.value)
      ==> r == Reply(400, ErrorBody(InvalidEmailMessage))
    ensures r.status == 200 <==> Filled(name) && Filled(email) && Filled(message) && Structural(email.value)
    ensures r.status == 200 ==> r.body == MessageBody(PlaceholderMessage)
  {
    if !Filled(name) || !Filled(email) || !Filled(message) then
      Reply(400, ErrorBody(RequiredMessage))
    else
      MatchesIffPattern(email.value);
      PatternIffStructural(email.value);
      if !Matches(email.value) then
        Reply(400, ErrorBody(InvalidEmailMessage))
      else
        Reply(200, MessageBody(PlaceholderMessage))
  }

  /** Addresses the pattern rejects. */
  lemma RejectedExamples()
    ensures !Matches("abc") && !Matches("a@b") && !Matches("a@b.") && !Matches("a@.b")
    ensures !Matches("a b@c.d") && !Matches("a@b@c.d")
  {
    assert !Matches("abc");
    assert !Matches("a@b");
    assert !Matches("a@b.");
    assert !Matches("a@.b");
    assert !Matches("a b@c.d");
    assert !Matches("a@b@c.d");
  }

  /** Addresses the pattern accepts. */
  lemma AcceptedExamples()
    ensures Matches("a@b.com") && Matches("a@b.c.d")
  {
    assert Matches("a@b.com");
    assert Matches("a@b.c.d");
  }

  /** A well-formed submission gets the placeholder reply. */
  lemma WellFormedPostExample()
    ensures Post(Some("A"), Some("a@b.com"), Some("hi")) == Reply(200, MessageBody(PlaceholderMessage))
  {
    AcceptedExamples();
  }

  /** A malformed address gets the e-mail error; a missing field gets the required-field error. */
  lemma RejectedPostExamples()
    ensures Post(Some("A"), Some("a@b"), Some("hi")) == Reply(400, ErrorBody(InvalidEmailMessage))
    ensures Post(Some("A"), Some("a@b.com"), Some("")) == Reply(400, ErrorBody(RequiredMessage))
    ensures Post(None, Some("abc"), Some("hi")) == Reply(400, ErrorBody(RequiredMessage))
  {
    RejectedExamples();
  }
}
