/** Ticket tokens (`tickets/createTicketTokens.py`): every distinct
    student number gets one random token, and no token is handed out
    twice. The issued student numbers and tokens are kept in two parallel
    lists; position k of one belongs with position k of the other.

    The random source is supplied by the caller: `draws` lists the values
    successive calls of `secrets.token_urlsafe` return. */
module Tokens {
  import opened Population

  /** What a successful `gen_token` returns: the new token and the two
      lists after the append. */
  datatype Issued = Issued(token: string, students: seq<string>, tokens: seq<string>)

  /** Some draw is not among `used`, so the rejection loop ends. */
  predicate HasFresh(draws: seq<string>, used: seq<string>)
  {
    exists k :: 0 <= k < |draws| && draws[k] !in used
  }

  /** The first draw that is not among `used`. */
  function FirstFresh(draws: seq<string>, used: seq<string>): (r: string)
    requires HasFresh(draws, used)
    ensures r !in used
    ensures exists c :: 0 <= c < |draws| && r == draws[c] && forall j :: 0 <= j < c ==> draws[j] in used
  {
    if draws[0] !in used then draws[0]
    else
      var k :| 0 <= k < |draws| && draws[k] !in used;
      assert draws[1..][k - 1] == draws[k];
      var r := FirstFresh(draws[1..], used);
      var c :| 0 <= c < |draws[1..]| && r == draws[1..][c] && forall j :: 0 <= j < c ==> draws[1..][j] in used;
      assert forall j :: 1 <= j < c + 1 ==> draws[j] == draws[1..][j - 1];
      r
  }

  /** `gen_token`: `None` for a student number that already has a token;
      otherwise the first drawn token not yet issued, appended together
      with the student number. */
  method GenToken(studentNum: string, eStudents: seq<string>, eTokens: seq<string>, draws: seq<string>)
    returns (r: Option<Issued>)
    requires studentNum !in eStudents ==> HasFresh(draws, eTokens)
    ensures r == None <==> studentNum in eStudents
    ensures r.Some? ==> r.value.token == FirstFresh(draws, eTokens) && r.value.token !in eTokens
    ensures r.Some? ==> r.value.students == eStudents + [studentNum] && r.value.tokens == eTokens + [r.value.token]
    ensures r.Some? && Distinct(eStudents) ==> Distinct(r.value.students)
    ensures r.Some? && Distinct(eTokens) ==> Distinct(r.value.tokens)
  {
    if studentNum in eStudents {
      return None;
    }
    ghost var w :| 0 <= w < |draws| && draws[w] !in eTokens;
    var c := 0;
    var tk := draws[c];
    while tk in eTokens
      invariant c <= w && tk == draws[c]
      invariant forall j :: 0 <= j < c ==> draws[j] in eTokens
      decreases w - c
    {
      c := c + 1;
      tk := draws[c];
    }
    FirstFreshIsFirst(draws, eTokens, c);
    var students := eStudents + [studentNum];
    var tokens := eTokens + [tk];
    return Some(Issued(tk, students, tokens));
  }

  /** The first fresh draw is the one at the first position whose draw is
      fresh. */
  lemma {:induction false} FirstFreshIsFirst(draws: seq<string>, used: seq<string>, c: nat)
    requires c < |draws| && draws[c] !in used
    requires forall j :: 0 <= j < c ==> draws[j] in used
    ensures FirstFresh(draws, used) == draws[c]
  {
    if c > 0 {
      assert draws[0] in used;
      assert draws[1..][c - 1] == draws[c];
      FirstFreshIsFirst(draws[1..], used, c - 1);
    }
  }

  /** The distinct elements of `s` in order of first occurrence. */
  function Dedup(s: seq<string>): (r: seq<string>)
  {
    if s == [] then []
    else
      var d := Dedup(s[..|s| - 1]);
      if s[|s| - 1] in d then d else d + [s[|s| - 1]]
  }

  /** `Dedup(s)` lists every element of `s` exactly once and nothing else. */
  lemma {:induction false} DedupFacts(s: seq<string>)
    ensures Distinct(Dedup(s))
    ensures forall x :: x in Dedup(s) <==> x in s
  {
    if s != [] {
      var init := s[..|s| - 1];
      DedupFacts(init);
      assert s == init + [s[|s| - 1]];
    }
  }

  /** Each call's draws hold a value that no earlier call drew. This is
      more than the source needs (a value no token issued so far equals),
      but enough for every rejection loop to end whatever was issued. */
  predicate FreshSupply(draws: seq<seq<string>>)
  {
    forall i :: 0 <= i < |draws| ==> HasFresh(draws[i], Flatten(draws[..i]))
  }

  lemma FreshSupplyPrefix(draws: seq<seq<string>>, n: nat)
    requires n <= |draws| && FreshSupply(draws)
    ensures FreshSupply(draws[..n])
  {
    forall i | 0 <= i < n
      ensures HasFresh(draws[..n][i], Flatten(draws[..n][..i]))
    {
      assert draws[..n][..i] == draws[..i];
    }
  }

  /** The two parallel lists of issued student numbers and tokens. */
  datatype Ledger = Ledger(students: seq<string>, tokens: seq<string>)

  /** The lists after the loop of `main` has seen `students`, number i
      with the draws of call i: a number already issued is skipped, a new
      one is issued the first of its call's draws that is not yet a
      token. Every token is one of the draws. */
  function Issue(students: seq<string>, draws: seq<seq<string>>): (r: Ledger)
    requires |draws| == |students| && FreshSupply(draws)
    ensures forall t :: t in r.tokens ==> t in Flatten(draws)
    decreases |students|
  {
    if students == [] then Ledger([], [])
    else
      var n := |students| - 1;
      FreshSupplyPrefix(draws, n);
      var prev := Issue(students[..n], draws[..n]);
      assert draws == draws[..n] + [draws[n]];
      FlattenSnoc(draws[..n], draws[n]);
      if students[n] in prev.students then prev
      else
        assert HasFresh(draws[n], prev.tokens) by {
          var k :| 0 <= k < |draws[n]| && draws[n][k] !in Flatten(draws[..n]);
        }
        Ledger(prev.students + [students[n]], prev.tokens + [FirstFresh(draws[n], prev.tokens)])
  }

  /** Every distinct student number gets exactly one token, in roster
      order, and no two tokens are equal. */
  lemma {:induction false} IssueFacts(students: seq<string>, draws: seq<seq<string>>)
    requires |draws| == |students| && FreshSupply(draws)
    ensures Issue(students, draws).students == Dedup(students)
    ensures |Issue(students, draws).tokens| == |Issue(students, draws).students|
    ensures Distinct(Issue(students, draws).tokens)
    decreases |students|
  {
    if students != [] {
      var n := |students| - 1;
      FreshSupplyPrefix(draws, n);
      IssueFacts(students[..n], draws[..n]);
      assert students[..n] == students[..|students| - 1];
    }
  }

  /** The loop of `main`: skip numbers already issued, otherwise call
      `gen_token` with the i-th call's draws and keep the lists it
      returns. The `None` of `gen_token` is never unpacked. The lists are
      those of `Issue`: every distinct student number gets exactly one
      token, in roster order, each the first fresh draw of its call, and
      the tokens are pairwise distinct. */
  method IssueTokens(students: seq<string>, draws: seq<seq<string>>)
    returns (eStudents: seq<string>, eTokens: seq<string>)
    requires |draws| == |students| && FreshSupply(draws)
    ensures Ledger(eStudents, eTokens) == Issue(students, draws)
    ensures eStudents == Dedup(students)
    ensures Distinct(eStudents) && forall s :: s in eStudents <==> s in students
    ensures |eTokens| == |eStudents| && Distinct(eTokens)
    ensures forall t :: t in eTokens ==> t in Flatten(draws)
  {
    eStudents, eTokens := [], [];
    for i := 0 to |students|
      invariant FreshSupply(draws[..i])
      invariant Ledger(eStudents, eTokens) == Issue(students[..i], draws[..i])
    {
      var s := students[i];
      assert students[..i + 1][..i] == students[..i];
      assert draws[..i + 1] == draws[..i] + [draws[i]];
      assert draws[..i + 1][..i] == draws[..i];
      FreshSupplyPrefix(draws, i + 1);
      FlattenSnoc(draws[..i], draws[i]);
      if s in eStudents {
        continue;
      }
      assert HasFresh(draws[i], eTokens) by {
        var k :| 0 <= k < |draws[i]| && draws[i][k] !in Flatten(draws[..i]);
      }
      var r := GenToken(s, eStudents, eTokens, draws[i]);
      assert r.Some?;
      eStudents, eTokens := r.value.students, r.value.tokens;
    }
    assert students[..|students|] == students;
    assert draws[..|draws|] == draws;
    IssueFacts(students, draws);
    DedupFacts(students);
  }
}
