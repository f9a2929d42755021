/**
 * The statement handling of the migration script: the migration file is
 * cut at `;`, each piece trimmed, empty pieces, comment pieces and a bare
 * `$$` dropped; then the statements are sent one at a time, each with its
 * `;` put back, skipping short ones and tolerating "does not exist" errors.
 */
module Migrate {
  import opened Strings

  // ---------------------------------------------------------------------------
  // Splitting
  // ---------------------------------------------------------------------------

  /** `s.split(';')`: the pieces between semicolons, including empty ones. */
  function SplitOnSemicolon(s: string): (pieces: seq<string>)
    ensures |pieces| >= 1
    ensures forall i | 0 <= i < |pieces| :: ';' !in pieces[i]
    ensures Join(pieces, ";") == s
  {
    if s == [] then [""]
    else
      var rest := SplitOnSemicolon(s[1..]);
      if s[0] == ';' then
        assert Join([""] + rest, ";") == "" + ";" + Join(rest, ";");
        [""] + rest
      else
        var pieces := [[s[0]] + rest[0]] + rest[1..];
        assert Join(pieces, ";") == [s[0]] + Join(rest, ";") by {
          if |rest| > 1 {
            assert pieces[1..] == rest[1..];
          }
        }
        pieces
  }

  // ---------------------------------------------------------------------------
  // Trimming
  // ---------------------------------------------------------------------------

  /**
   * The characters `String.prototype.trim` removes: the ECMAScript
   * WhiteSpace and LineTerminator characters.
   */
  predicate IsTrimmable(c: char)
  {
    || c == ' ' || c == '\t' || c == '\n' || c == '\r' || c == '\U{0B}' || c == '\U{0C}'
    || c == '\U{A0}' || c == '\U{FEFF}' || c == '\U{1680}' || ('\U{2000}' <= c <= '\U{200A}')
    || c == '\U{2028}' || c == '\U{2029}' || c == '\U{202F}' || c == '\U{205F}' || c == '\U{3000}'
  }

  /** Drops leading whitespace: the result is a suffix of `s` preceded only by whitespace. */
  function TrimStart(s: string): (r: string)
    ensures |r| <= |s| && r == s[|s| - |r|..]
    ensures forall i | 0 <= i < |s| - |r| :: IsTrimmable(s[i])
    ensures r == [] || !IsTrimmable(r[0])
  {
    if s != [] && IsTrimmable(s[0]) then TrimStart(s[1..]) else s
  }

  /** Drops trailing whitespace: the result is a prefix of `s` followed only by whitespace. */
  function TrimEnd(s: string): (r: string)
    ensures |r| <= |s| && r == s[..|r|]
    ensures forall i | |r| <= i < |s| :: IsTrimmable(s[i])
    ensures r == [] || !IsTrimmable(r[|r| - 1])
  {
    if s != [] && IsTrimmable(s[|s| - 1]) then TrimEnd(s[..|s| - 1]) else s
  }

  /** `s.trim()` */
  function Trim(s: string): string
  {
    TrimEnd(TrimStart(s))
  }

  /** Where the run kept by `Trim` starts in `s`. */
  function TrimOffset(s: string): (k: nat)
    ensures k <= |s|
  {
    |s| - |TrimStart(s)|
  }

  /**
   * What trimming does: it keeps the run of `s` starting at `TrimOffset(s)`,
   * removes only whitespace around it, and leaves no whitespace at either end.
   */
  lemma TrimKeepsInnerRun(s: string)
    ensures OccursAt(s, Trim(s), TrimOffset(s))
    ensures forall i | 0 <= i < TrimOffset(s) :: IsTrimmable(s[i])
    ensures forall i | TrimOffset(s) + |Trim(s)| <= i < |s| :: IsTrimmable(s[i])
    ensures Trim(s) == [] || (!IsTrimmable(Trim(s)[0]) && !IsTrimmable(Trim(s)[|Trim(s)| - 1]))
  {
    var t := TrimStart(s);
    var r := TrimEnd(t);
    var k := |s| - |t|;
    assert t == s[k..];
    assert r == t[..|r|];
    TrimmedRunInside(s, t, r, k);
    if r != [] {
      assert r[0] == t[0];
    }
  }

  /** A prefix `r` of the suffix `t == s[k..]` occurs in `s` at `k`, and what follows it in `t` follows it in `s`. */
  lemma TrimmedRunInside(s: string, t: string, r: string, k: nat)
    requires k <= |s| && t == s[k..] && |r| <= |t| && r == t[..|r|]
    requires forall i | |r| <= i < |t| :: IsTrimmable(t[i])
    ensures OccursAt(s, r, k)
    ensures forall i | k + |r| <= i < |s| :: IsTrimmable(s[i])
  {
    assert s[k..k + |r|] == r;
    forall i | k + |r| <= i < |s| ensures IsTrimmable(s[i]) {
      assert s[i] == t[i - k];
    }
  }

  /** Trimming twice is trimming once. */
  lemma TrimIdempotent(s: string)
    ensures Trim(Trim(s)) == Trim(s)
  {
    TrimKeepsInnerRun(s);
    var r := Trim(s);
    assert TrimStart(r) == r;
    assert TrimEnd(r) == r;
  }

  /** A trimmed piece holds no character its piece did not hold. */
  lemma TrimAddsNothing(s: string, c: char)
    requires c !in s
    ensures c !in Trim(s)
  {
    TrimKeepsInnerRun(s);
    var r := Trim(s);
    var k := TrimOffset(s);
    forall i | 0 <= i < |r| ensures r[i] != c {
      assert r[i] == s[k..k + |r|][i] == s[k + i];
    }
  }

  // ---------------------------------------------------------------------------
  // The statement list
  // ---------------------------------------------------------------------------

  /** `.map(s => s.trim())` */
  function TrimAll(pieces: seq<string>): (r: seq<string>)
    ensures |r| == |pieces|
    ensures forall i | 0 <= i < |pieces| :: r[i] == Trim(pieces[i])
  {
    seq(|pieces|, i requires 0 <= i < |pieces| => Trim(pieces[i]))
  }

  /** The filter's test: non-empty, not a `--` comment, not a bare `$$`. */
  predicate KeepStatement(s: string)
  {
    |s| > 0 && !StartsWith(s, "--") && s != "$$"
  }

  /** `a` is `b` with some elements dropped, the rest in their order and unchanged. */
  ghost predicate IsSubsequence(a: seq<string>, b: seq<string>)
  {
    if a == [] then true
    else if b == [] then false
    else (a[0] == b[0] && IsSubsequence(a[1..], b[1..])) || IsSubsequence(a, b[1..])
  }

  /** `.filter(KeepStatement)` */
  function FilterStatements(pieces: seq<string>): (r: seq<string>)
    ensures forall i | 0 <= i < |r| :: KeepStatement(r[i])
    ensures forall i | 0 <= i < |pieces| :: KeepStatement(pieces[i]) ==> pieces[i] in r
    ensures forall x | x in r :: x in pieces
    ensures IsSubsequence(r, pieces)
    ensures forall x :: multiset(r)[x] == if KeepStatement(x) then multiset(pieces)[x] else 0
  {
    if pieces == [] then []
    else
      var rest := FilterStatements(pieces[1..]);
      assert pieces == [pieces[0]] + pieces[1..];
      if KeepStatement(pieces[0]) then
        assert ([pieces[0]] + rest)[1..] == rest;
        [pieces[0]] + rest
      else rest
  }

  /** The statements of a migration file, in file order. */
  function Statements(sql: string): seq<string>
  {
    FilterStatements(TrimAll(SplitOnSemicolon(sql)))
  }

  /**
   * Every statement kept is non-empty, no comment, no bare `$$`, holds no
   * `;`, and the statements are the trimmed pieces with some dropped, never
   * reordered or altered.
   */
  lemma StatementsWellFormed(sql: string)
    ensures forall i | 0 <= i < |Statements(sql)| :: KeepStatement(Statements(sql)[i])
    ensures forall i | 0 <= i < |Statements(sql)| :: ';' !in Statements(sql)[i]
    ensures IsSubsequence(Statements(sql), TrimAll(SplitOnSemicolon(sql)))
  {
    var pieces := SplitOnSemicolon(sql);
    var trimmed := TrimAll(pieces);
    forall i | 0 <= i < |trimmed| ensures ';' !in trimmed[i] {
      TrimAddsNothing(pieces[i], ';');
    }
    forall i | 0 <= i < |Statements(sql)| ensures ';' !in Statements(sql)[i] {
      assert Statements(sql)[i] in trimmed;
    }
  }

  // ---------------------------------------------------------------------------
  // Executing the statements
  // ---------------------------------------------------------------------------

  /** The outcome of one `db.query`. */
  datatype QueryResult = Succeeded | Failed(message: string)

  datatype MigrationOutcome = Completed | Aborted(message: string)

  /** The loop's own skip test, negated: long enough and not a comment. */
  predicate ShouldExecute(statement: string)
  {
    !(|statement| < 10 || StartsWith(statement, "--"))
  }

  /** A failure the loop steps over: its message is truthy and mentions `does not exist`. */
  predicate IsTolerated(message: string)
  {
    message != "" && Contains(message, "does not exist")
  }

  /** The loop carries on after this result. */
  predicate Passes(r: QueryResult)
  {
    r.Succeeded? || IsTolerated(r.message)
  }

  /** The texts the loop sends, in order, when nothing aborts it: each executed statement with `;` appended. */
  function Planned(statements: seq<string>): (texts: seq<string>)
    ensures |texts| <= |statements|
  {
    if statements == [] then []
    else
      var last := statements[|statements| - 1];
      Planned(statements[..|statements| - 1]) + (if ShouldExecute(last) then [last + ";"] else [])
  }

  /** Running part of the statements sends a prefix of what running all of them sends. */
  lemma {:induction false} PlannedPrefix(statements: seq<string>, n: nat)
    requires n <= |statements|
    ensures Planned(statements[..n]) <= Planned(statements)
    decreases |statements| - n
  {
    if n < |statements| {
      var init := statements[..|statements| - 1];
      assert init[..n] == statements[..n];
      PlannedPrefix(init, n);
    } else {
      assert statements[..n] == statements;
    }
  }

  /** Nothing short or commented is ever sent, and every text sent ends in `;`. */
  lemma {:induction false} PlannedTexts(statements: seq<string>)
    ensures forall i | 0 <= i < |Planned(statements)| ::
              |Planned(statements)[i]| >= 11 && Planned(statements)[i][|Planned(statements)[i]| - 1] == ';'
              && !StartsWith(Planned(statements)[i], "--")
  {
    if statements != [] {
      PlannedTexts(statements[..|statements| - 1]);
      var last := statements[|statements| - 1];
      if ShouldExecute(last) {
        var t := last + ";";
        assert t[..2] == last[..2];
      }
    }
  }

  /** Whatever prefix of the planned texts was sent, nothing short or commented was among it. */
  lemma SentTextsWellFormed(statements: seq<string>, sent: seq<string>)
    requires sent <= Planned(statements)
    ensures forall i | 0 <= i < |sent| :: !StartsWith(sent[i], "--") && |sent[i]| >= 11
  {
    PlannedTexts(statements);
    forall i | 0 <= i < |sent| ensures !StartsWith(sent[i], "--") && |sent[i]| >= 11 {
      assert sent[i] == Planned(statements)[i];
    }
  }

  /**
   * The loop of the migration: sends each statement that passes the skip
   * test, with `;` appended; a failure mentioning "does not exist" is
   * stepped over, any other failure stops the loop.
   */
  method RunStatements(statements: seq<string>, query: string -> QueryResult)
    returns (sent: seq<string>, outcome: MigrationOutcome)
    ensures sent <= Planned(statements)
    ensures forall i | 0 <= i < |sent| - 1 :: Passes(query(sent[i]))
    ensures outcome.Completed? ==> sent == Planned(statements)
    ensures outcome.Aborted? ==>
              sent != [] && query(sent[|sent| - 1]) == Failed(outcome.message) && !IsTolerated(outcome.message)
    ensures outcome.Completed? <==> forall i | 0 <= i < |Planned(statements)| :: Passes(query(Planned(statements)[i]))
  {
    sent := [];
    var i := 0;
    while i < |statements|
      invariant 0 <= i <= |statements|
      invariant sent == Planned(statements[..i])
      invariant forall k | 0 <= k < |sent| :: Passes(query(sent[k]))
    {
      var statement := statements[i];
      assert statements[..i + 1][..i] == statements[..i];
      if |statement| < 10 || StartsWith(statement, "--") {
        i := i + 1;
        continue;
      }
      var text := statement + ";";
      sent := sent + [text];
      var result := query(text);
      if result.Failed? && !IsTolerated(result.message) {
        PlannedPrefix(statements, i + 1);
        outcome := Aborted(result.message);
        return;
      }
      i := i + 1;
    }
    assert statements[..i] == statements;
    outcome := Completed;
  }

  /** `migrate`, without its connection and file handling: the statements of `sql`, run in order. */
  method RunMigration(sql: string, query: string -> QueryResult) returns (sent: seq<string>, outcome: MigrationOutcome)
    ensures sent <= Planned(Statements(sql))
    ensures forall i | 0 <= i < |sent| :: !StartsWith(sent[i], "--") && |sent[i]| >= 11
    ensures outcome.Completed? <==> forall i | 0 <= i < |Planned(Statements(sql))| :: Passes(query(Planned(Statements(sql))[i]))
  {
    var statements := Statements(sql);
    sent, outcome := RunStatements(statements, query);
    SentTextsWellFormed(statements, sent);
  }
}
