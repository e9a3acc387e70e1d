/** `UserMatcher.match_users`: scores every user against one transaction
    description by the first of five tiers that succeeds, drops the users no
    tier accepts and returns the rest in stable descending order of score. */
module Matcher {
  import opened Text
  import opened Ranking

  datatype Option<T> = None | Some(value: T)

  /** A user as an item of the users dictionary: `(id, name)`. */
  type User = (string, string)

  /** `rapidfuzz.fuzz.token_sort_ratio`, which is not part of this model:
      any function of two strings. */
  type Ratio = (string, string) -> real

  /** What the library promises of the ratio: a value in [0, 100]. */
  ghost predicate RatioInRange(ratio: Ratio) {
    forall a, b :: 0.0 <= ratio(a, b) <= 100.0
  }

  /** `FUZZY_MATCH_THRESHOLD / 100.0`. */
  const FuzzyThreshold: real := 70.0 / 100.0

  datatype Tier = Exact | Token | Substring | FuzzyToken | FuzzyWhole

  datatype Scored = Scored(tier: Tier, score: real)

  predicate UserIdsDistinct(users: seq<User>) {
    forall i, j :: 0 <= i < j < |users| ==> users[i].0 != users[j].0
  }

  /** The loop of lines 112-116: the running maximum of
      `token_sort_ratio(name, token) / 100.0` over the tokens, from 0. */
  function BestTokenScore(name: string, tokens: seq<string>, ratio: Ratio): (best: real)
    ensures best >= 0.0
    ensures forall i :: 0 <= i < |tokens| ==> best >= ratio(name, tokens[i]) / 100.0
    ensures best == 0.0 || exists i :: 0 <= i < |tokens| && best == ratio(name, tokens[i]) / 100.0
    decreases |tokens|
  {
    if tokens == [] then 0.0
    else
      var prefix := tokens[..|tokens| - 1];
      var before := BestTokenScore(name, prefix, ratio);
      var score := ratio(name, tokens[|tokens| - 1]) / 100.0;
      assert forall i :: 0 <= i < |prefix| ==> tokens[i] == prefix[i];
      if score > before then score else before
  }

  /** The five tiers of lines 94-126 for one normalised name against the
      normalised description; the first tier that succeeds decides. */
  function Classify(name: string, desc: string, ratio: Ratio): (r: Option<Scored>)
    ensures r.Some? ==> r.value.score >= FuzzyThreshold
  {
    var tokens := Split(desc);
    if name == desc then
      assert name <= desc[0..];
      Some(Scored(Exact, 1.0))
    else if name in tokens then
      TokensAreSubstrings(desc);
      Some(Scored(Token, 0.95))
    else if IsSubstring(name, desc) then
      SubstringLength(name, desc);
      LengthRatioBelowOne(|name|, |desc|);
      Some(Scored(Substring, 0.85 + (|name| as real / |desc| as real) * 0.1))
    else
      var best := BestTokenScore(name, tokens, ratio);
      if best >= FuzzyThreshold then Some(Scored(FuzzyToken, best))
      else
        var full := ratio(name, desc) / 100.0;
        if full >= FuzzyThreshold then Some(Scored(FuzzyWhole, full))
        else None
  }

  /** The `matches` dictionary after the loop over `users`, as its items in
      insertion order: one entry per user that some tier accepts. */
  function ScoreAll(desc: string, users: seq<User>, ratio: Ratio): (r: seq<Entry>)
    ensures |r| <= |users|
    ensures forall e :: e in r ==> e.1 >= FuzzyThreshold
    decreases |users|
  {
    if users == [] then []
    else
      var rest := ScoreAll(desc, users[..|users| - 1], ratio);
      var u := users[|users| - 1];
      match Classify(Normalize(u.1), desc, ratio)
      case None => rest
      case Some(sc) => rest + [(u.0, sc.score)]
  }

  /** Appending one user to the loop's prefix appends its entry, if any. */
  lemma ScoreAllStep(desc: string, users: seq<User>, k: nat, ratio: Ratio, outcome: Option<Scored>)
    requires k < |users|
    requires Classify(Normalize(users[k].1), desc, ratio) == outcome
    ensures ScoreAll(desc, users[..k + 1], ratio)
            == ScoreAll(desc, users[..k], ratio)
               + if outcome.Some? then [(users[k].0, outcome.value.score)] else []
  {
    assert users[..k + 1][..k] == users[..k];
    var rest := ScoreAll(desc, users[..k], ratio);
    assert rest + [] == rest;
  }

  lemma ExactTier(name: string, desc: string, ratio: Ratio)
    requires name == desc
    ensures Classify(name, desc, ratio) == Some(Scored(Exact, 1.0))
  {
  }

  lemma TokenTier(name: string, desc: string, ratio: Ratio)
    requires name != desc && name in Split(desc)
    ensures Classify(name, desc, ratio) == Some(Scored(Token, 0.95))
  {
  }

  lemma SubstringTier(name: string, desc: string, ratio: Ratio)
    requires name != desc && name !in Split(desc) && IsSubstring(name, desc)
    ensures |desc| > 0
    ensures Classify(name, desc, ratio)
            == Some(Scored(Substring, 0.85 + (|name| as real / |desc| as real) * 0.1))
  {
    SubstringLength(name, desc);
  }

  lemma FuzzyTokenTier(name: string, desc: string, ratio: Ratio)
    requires name != desc && name !in Split(desc) && !IsSubstring(name, desc)
    requires BestTokenScore(name, Split(desc), ratio) >= FuzzyThreshold
    ensures Classify(name, desc, ratio)
            == Some(Scored(FuzzyToken, BestTokenScore(name, Split(desc), ratio)))
  {
  }

  lemma FuzzyWholeTier(name: string, desc: string, ratio: Ratio)
    requires name != desc && name !in Split(desc) && !IsSubstring(name, desc)
    requires BestTokenScore(name, Split(desc), ratio) < FuzzyThreshold
    ensures Classify(name, desc, ratio)
            == if ratio(name, desc) / 100.0 >= FuzzyThreshold
               then Some(Scored(FuzzyWhole, ratio(name, desc) / 100.0))
               else None
  {
  }

  /** The result for an already normalised description. */
  function MatchDescription(desc: string, users: seq<User>, ratio: Ratio): (r: seq<Entry>)
    ensures NonIncreasing(r)
    ensures |r| <= |users|
    ensures forall e :: e in r ==> e.1 >= FuzzyThreshold
  {
    if desc == [] || users == [] then []
    else
      var matches := ScoreAll(desc, users, ratio);
      SortKeepsMembers(matches);
      assert |SortByScore(matches)| == |multiset(SortByScore(matches))| == |matches|;
      SortByScore(matches)
  }

  /** The result of `match_users(transactionId)`, before rounding. */
  function MatchTransaction(transactionId: string, transactions: map<string, string>,
                            users: seq<User>, ratio: Ratio): (r: seq<Entry>)
    ensures transactionId !in transactions ==> r == []
    ensures NonIncreasing(r)
    ensures |r| <= |users|
    ensures forall e :: e in r ==> e.1 >= FuzzyThreshold
  {
    if transactionId !in transactions then []
    else MatchDescription(Normalize(transactions[transactionId]), users, ratio)
  }

  /** `UserMatcher.match_users`; the transaction and user tables are
      parameters instead of the cached CSV data. */
  method MatchUsers(transactionId: string, transactions: map<string, string>,
                    users: seq<User>, ratio: Ratio)
    returns (result: seq<Entry>, count: nat)
    ensures result == MatchTransaction(transactionId, transactions, users, ratio)
    ensures count == |result|
  {
    if transactionId !in transactions {
      return [], 0;
    }
    var description := Normalize(transactions[transactionId]);
    if description == [] || users == [] {
      return [], 0;
    }
    var tokens := Split(description);
    var matches: seq<Entry> := [];
    for k := 0 to |users|
      invariant matches == ScoreAll(description, users[..k], ratio)
    {
      var userId := users[k].0;
      var userName := Normalize(users[k].1);
      var outcome := ScoreUser(userName, description, tokens, ratio);
      ScoreAllStep(description, users, k, ratio, outcome);
      if outcome.Some? {
        matches := matches + [(userId, outcome.value.score)];
      }
    }
    assert users[..|users|] == users;
    result := SortByScore(matches);
    count := |result|;
  }

  /** The body of the loop over `users` (lines 92-126) for one normalised
      name: the tiers are tried in order and the first that succeeds ends the
      user's turn, as each `continue` does. */
  method ScoreUser(userName: string, description: string, tokens: seq<string>, ratio: Ratio)
    returns (outcome: Option<Scored>)
    requires tokens == Split(description)
    ensures outcome == Classify(userName, description, ratio)
  {
    if userName == description {
      ExactTier(userName, description, ratio);
      return Some(Scored(Exact, 1.0));
    }
    if userName in tokens {
      TokenTier(userName, description, ratio);
      return Some(Scored(Token, 0.95));
    }
    if IsSubstring(userName, description) {
      SubstringTier(userName, description, ratio);
      var ratioOfLengths := |userName| as real / |description| as real;
      return Some(Scored(Substring, 0.85 + ratioOfLengths * 0.1));
    }
    var bestTokenScore: real := 0.0;
    for t := 0 to |tokens|
      invariant bestTokenScore == BestTokenScore(userName, tokens[..t], ratio)
    {
      assert tokens[..t + 1][..t] == tokens[..t];
      var tokenScore := ratio(userName, tokens[t]) / 100.0;
      if tokenScore > bestTokenScore {
        bestTokenScore := tokenScore;
      }
    }
    assert tokens[..|tokens|] == tokens;
    if bestTokenScore >= FuzzyThreshold {
      FuzzyTokenTier(userName, description, ratio);
      return Some(Scored(FuzzyToken, bestTokenScore));
    }
    FuzzyWholeTier(userName, description, ratio);
    var fullScore := ratio(userName, description) / 100.0;
    if fullScore >= FuzzyThreshold {
      return Some(Scored(FuzzyWhole, fullScore));
    }
    return None;
  }

  /** `e` is the entry user `u` contributes to `matches`. */
  predicate IsEntryOf(e: Entry, u: User, desc: string, ratio: Ratio) {
    var outcome := Classify(Normalize(u.1), desc, ratio);
    e.0 == u.0 && outcome.Some? && e.1 == outcome.value.score
  }

  /** The early exits of lines 79-85: an unknown transaction, a description
      that is empty once stripped, or an empty user table give no matches. */
  lemma EarlyExits(transactionId: string, transactions: map<string, string>,
                   users: seq<User>, ratio: Ratio)
    requires transactionId !in transactions
             || AllSpace(transactions[transactionId])
             || users == []
    ensures MatchTransaction(transactionId, transactions, users, ratio) == []
  {
  }

  /** Every entry of `matches` comes from one user that some tier accepted,
      and every such user contributes its entry. */
  lemma {:induction false} ScoreAllMembers(desc: string, users: seq<User>, ratio: Ratio)
    ensures forall e :: e in ScoreAll(desc, users, ratio) <==>
                        exists k :: 0 <= k < |users| && IsEntryOf(e, users[k], desc, ratio)
    decreases |users|
  {
    if users != [] {
      var n := |users| - 1;
      var prefix := users[..n];
      var all := ScoreAll(desc, users, ratio);
      var outcome := Classify(Normalize(users[n].1), desc, ratio);
      var tail := if outcome.Some? then [(users[n].0, outcome.value.score)] else [];
      ScoreAllMembers(desc, prefix, ratio);
      ScoreAllStep(desc, users, n, ratio, outcome);
      assert users[..n + 1] == users;
      assert all == ScoreAll(desc, prefix, ratio) + tail;
      forall e | e in all
        ensures exists k :: 0 <= k < |users| && IsEntryOf(e, users[k], desc, ratio)
      {
        if e in ScoreAll(desc, prefix, ratio) {
          var k :| 0 <= k < |prefix| && IsEntryOf(e, prefix[k], desc, ratio);
          assert users[k] == prefix[k];
        } else {
          assert e in tail;
          assert IsEntryOf(e, users[n], desc, ratio);
        }
      }
      forall e | exists k :: 0 <= k < |users| && IsEntryOf(e, users[k], desc, ratio)
        ensures e in all
      {
        var k :| 0 <= k < |users| && IsEntryOf(e, users[k], desc, ratio);
        if k < n {
          assert prefix[k] == users[k];
          assert e in ScoreAll(desc, prefix, ratio);
        } else {
          assert k == n && outcome.Some?;
          assert e == (users[n].0, outcome.value.score);
        }
      }
    }
  }

  /** With distinct user ids, `matches` has at most one entry per id. */
  lemma {:induction false} ScoreAllIdsDistinct(desc: string, users: seq<User>, ratio: Ratio)
    requires UserIdsDistinct(users)
    ensures DistinctIds(ScoreAll(desc, users, ratio))
    decreases |users|
  {
    if users != [] {
      var n := |users| - 1;
      var prefix := users[..n];
      var rest := ScoreAll(desc, prefix, ratio);
      assert UserIdsDistinct(prefix);
      ScoreAllIdsDistinct(desc, prefix, ratio);
      ScoreAllMembers(desc, prefix, ratio);
      forall e | e in rest ensures e.0 != users[n].0 {
        var k :| 0 <= k < |prefix| && IsEntryOf(e, prefix[k], desc, ratio);
        assert prefix[k] == users[k];
      }
      var outcome := Classify(Normalize(users[n].1), desc, ratio);
      ScoreAllStep(desc, users, n, ratio, outcome);
      assert users[..n + 1] == users;
      if outcome.Some? {
        AppendKeepsIdsDistinct(rest, (users[n].0, outcome.value.score));
      }
    }
  }

  /** What the matcher returns for a non-empty normalised description and a
      non-empty user table: the accepted users' entries, each once, with no
      other entries, non-increasing in score, and with equal scores in user
      order. */
  lemma MatchDescriptionProperties(desc: string, users: seq<User>, ratio: Ratio)
    requires desc != [] && users != []
    requires UserIdsDistinct(users)
    ensures var r := MatchDescription(desc, users, ratio);
            && NonIncreasing(r)
            && DistinctIds(r)
            && (forall e :: e in r <==> exists k :: 0 <= k < |users| && IsEntryOf(e, users[k], desc, ratio))
            && (forall v :: WithScore(r, v) == WithScore(ScoreAll(desc, users, ratio), v))
  {
    var m := ScoreAll(desc, users, ratio);
    ScoreAllMembers(desc, users, ratio);
    ScoreAllIdsDistinct(desc, users, ratio);
    SortKeepsMembers(m);
    SortKeepsIdsDistinct(m);
    forall v ensures WithScore(SortByScore(m), v) == WithScore(m, v) {
      SortIsStable(m, v);
    }
  }

  /** First tier wins, one score per user: a user no tier accepts has no
      entry, and a user some tier accepts has exactly that tier's score. */
  lemma UserOutcome(desc: string, users: seq<User>, ratio: Ratio, k: nat)
    requires desc != [] && k < |users|
    requires UserIdsDistinct(users)
    ensures var r := MatchDescription(desc, users, ratio);
            var outcome := Classify(Normalize(users[k].1), desc, ratio);
            && (outcome.None? ==> forall e :: e in r ==> e.0 != users[k].0)
            && (outcome.Some? ==> (users[k].0, outcome.value.score) in r)
            && (outcome.Some? ==> forall e :: e in r && e.0 == users[k].0 ==> e.1 == outcome.value.score)
  {
    var r := MatchDescription(desc, users, ratio);
    MatchDescriptionProperties(desc, users, ratio);
    forall e | e in r && e.0 == users[k].0
      ensures IsEntryOf(e, users[k], desc, ratio)
    {
      var j :| 0 <= j < |users| && IsEntryOf(e, users[j], desc, ratio);
      assert j == k;
    }
    var outcome := Classify(Normalize(users[k].1), desc, ratio);
    if outcome.Some? {
      assert IsEntryOf((users[k].0, outcome.value.score), users[k], desc, ratio);
    }
  }

  /** The score each tier gives, and that every score lies in [0.70, 1.0]. */
  lemma TierScores(name: string, desc: string, ratio: Ratio)
    requires RatioInRange(ratio)
    ensures match Classify(name, desc, ratio)
            case None => true
            case Some(sc) =>
              && 0.7 <= sc.score <= 1.0
              && (sc.tier == Exact ==> name == desc && sc.score == 1.0)
              && (sc.tier == Token ==> name != desc && name in Split(desc) && sc.score == 0.95)
              && (sc.tier == Substring ==>
                    && IsSubstring(name, desc) && |name| < |desc|
                    && sc.score == 0.85 + (|name| as real / |desc| as real) * 0.1
                    && 0.85 <= sc.score < 0.95)
              && (sc.tier == FuzzyToken ==>
                    !IsSubstring(name, desc) && sc.score == BestTokenScore(name, Split(desc), ratio))
              && (sc.tier == FuzzyWhole ==>
                    BestTokenScore(name, Split(desc), ratio) < 0.7 && sc.score == ratio(name, desc) / 100.0)
  {
    var tokens := Split(desc);
    if name != desc && name !in tokens && IsSubstring(name, desc) {
      SubstringLength(name, desc);
      LengthRatioBelowOne(|name|, |desc|);
    } else if name != desc && name !in tokens {
      var best := BestTokenScore(name, tokens, ratio);
      if best != 0.0 {
        var i :| 0 <= i < |tokens| && best == ratio(name, tokens[i]) / 100.0;
        assert ratio(name, tokens[i]) <= 100.0;
      }
      assert ratio(name, desc) <= 100.0;
    }
  }

  lemma LengthRatioBelowOne(a: nat, b: nat)
    requires a < b
    ensures 0.0 <= a as real / b as real < 1.0
  {
    var q := a as real / b as real;
    assert q * b as real == a as real;
  }

  /** Every score the matcher returns lies in [0.70, 1.0]. */
  lemma MatchScoresInRange(desc: string, users: seq<User>, ratio: Ratio)
    requires RatioInRange(ratio)
    ensures forall e :: e in MatchDescription(desc, users, ratio) ==> 0.7 <= e.1 <= 1.0
  {
    if desc != [] && users != [] {
      var m := ScoreAll(desc, users, ratio);
      ScoreAllMembers(desc, users, ratio);
      SortKeepsMembers(m);
      forall e | e in MatchDescription(desc, users, ratio) ensures 0.7 <= e.1 <= 1.0 {
        var k :| 0 <= k < |users| && IsEntryOf(e, users[k], desc, ratio);
        TierScores(Normalize(users[k].1), desc, ratio);
      }
    }
  }

  /** A name that is empty after stripping is never a token, but it is a
      substring of every description, so it lands in tier 3 with 0.85. */
  lemma EmptyNameScoresSubstringFloor(desc: string, ratio: Ratio)
    requires desc != []
    ensures Classify([], desc, ratio) == Some(Scored(Substring, 0.85))
  {
    assert IsSubstring([], desc);
    assert 0 as real / |desc| as real == 0.0;
  }

  /** A name that occurs literally in the description is never dropped and
      scores at least 0.85: only users with no literal occurrence reach the
      fuzzy tiers and their 0.70 threshold. */
  lemma OccurrenceIsNeverDropped(name: string, desc: string, ratio: Ratio)
    requires IsSubstring(name, desc)
    ensures Classify(name, desc, ratio).Some?
    ensures Classify(name, desc, ratio).value.score >= 0.85
  {
    if name != desc && name !in Split(desc) {
      SubstringTier(name, desc, ratio);
      SubstringLength(name, desc);
      LengthRatioBelowOne(|name|, |desc|);
    }
  }

  /** Every token is a substring, so tier 2 is tier 3 with a higher score:
      tier order matters. */
  lemma TokenMatchIsSubstringMatch(name: string, desc: string)
    requires name in Split(desc)
    ensures IsSubstring(name, desc)
  {
    TokensAreSubstrings(desc);
  }

  /** A description equal to the name up to case gives that user the
      exact-match score. */
  lemma ExampleExactMatch(ratio: Ratio)
    ensures MatchTransaction("t1", map["t1" := "ALICE"], [("u1", "alice")], ratio)
            == [("u1", 1.0)]
  {
    NormalizeAlice();
    ExactTier("alice", "alice", ratio);
    ScoreAllSingle("alice", ("u1", "alice"), ratio, Some(Scored(Exact, 1.0)));
  }

  /** A name equal to one word of the description gets the token score. */
  lemma ExampleTokenMatch(ratio: Ratio)
    ensures MatchTransaction("t1", map["t1" := "payment from BOB today"], [("u1", "bob")], ratio)
            == [("u1", 0.95)]
  {
    var desc := "payment from bob today";
    NormalizePaymentFromBob();
    SplitPaymentFromBob();
    TokenTier("bob", desc, ratio);
    ScoreAllSingle(desc, ("u1", "bob"), ratio, Some(Scored(Token, 0.95)));
    assert MatchDescription(desc, [("u1", "bob")], ratio) == SortByScore([("u1", 0.95)]);
  }

  lemma ScoreAllSingle(desc: string, u: User, ratio: Ratio, outcome: Option<Scored>)
    requires Classify(Normalize(u.1), desc, ratio) == outcome
    ensures ScoreAll(desc, [u], ratio) == if outcome.Some? then [(u.0, outcome.value.score)] else []
  {
    ScoreAllStep(desc, [u], 0, ratio, outcome);
    assert [u][..1] == [u];
    assert [u][..0] == [];
  }

  lemma NormalizeAlice()
    ensures Normalize("ALICE") == "alice" && Normalize("alice") == "alice"
  {
    StripTrimmed("ALICE");
    assert ToLower("ALICE") == "alice";
    StripTrimmed("alice");
    assert ToLower("alice") == "alice";
  }

  lemma NormalizePaymentFromBob()
    ensures Normalize("payment from BOB today") == "payment from bob today"
    ensures Normalize("bob") == "bob"
  {
    StripPaymentFromBob();
    LowerPaymentFromBob();
    NormalizeBob();
  }

  lemma StripPaymentFromBob()
    ensures Strip("payment from BOB today") == "payment from BOB today"
  {
    var s := "payment from BOB today";
    assert !IsSpace(s[0]) && !IsSpace(s[|s| - 1]);
    StripTrimmed(s);
  }

  lemma NormalizeBob()
    ensures Normalize("bob") == "bob"
  {
    StripTrimmed("bob");
    assert ToLower("bob") == "bob";
  }

  lemma LowerPaymentFromBob()
    ensures ToLower("payment from BOB today") == "payment from bob today"
  {
    var r := ToLower("payment from BOB today");
    assert r[..13] == "payment from ";
    assert r[13..16] == "bob";
    assert r[16..] == " today";
    assert r == r[..13] + r[13..16] + r[16..];
  }

  lemma SplitPaymentFromBob()
    ensures "bob" in Split("payment from bob today")
  {
    var words := ["payment", "from", "bob", "today"];
    assert Join(words) == "payment from bob today";
    SplitJoin(words);
    assert "bob" == words[2];
  }

  /** Tiers do not rank a literal occurrence of a name above every fuzzy
      match: "han" occurs in "johnathan" and scores 0.85 + 0.1 * 3/9, while
      "jonathan", one insertion away, reaches tier 4 with the indel ratio
      16/17 that a token-sort ratio gives such a pair. */
  lemma FuzzyCanOutscoreSubstring()
    ensures var ratio := (a: string, b: string) =>
                           if a == "jonathan" && b == "johnathan" then 1600.0 / 17.0 else 0.0;
            && RatioInRange(ratio)
            && Classify("han", "johnathan", ratio) == Some(Scored(Substring, 0.85 + (3.0 / 9.0) * 0.1))
            && Classify("jonathan", "johnathan", ratio) == Some(Scored(FuzzyToken, 16.0 / 17.0))
            && 16.0 / 17.0 > 0.85 + (3.0 / 9.0) * 0.1
  {
    var ratio := (a: string, b: string) =>
                   if a == "jonathan" && b == "johnathan" then 1600.0 / 17.0 else 0.0;
    HanIsSubstringTier(ratio);
    JonathanIsFuzzyTokenTier(ratio);
  }

  lemma SplitJohnathan()
    ensures Split("johnathan") == ["johnathan"]
  {
    assert Join(["johnathan"]) == "johnathan";
    SplitJoin(["johnathan"]);
  }

  lemma HanIsSubstringTier(ratio: Ratio)
    ensures Classify("han", "johnathan", ratio) == Some(Scored(Substring, 0.85 + (3.0 / 9.0) * 0.1))
  {
    var desc := "johnathan";
    SplitJohnathan();
    assert |"han"| != |desc|;
    assert "han" !in ["johnathan"];
    assert "han" <= desc[6..];
    SubstringTier("han", desc, ratio);
    assert |"han"| as real / |desc| as real == 3.0 / 9.0;
  }

  lemma JonathanIsFuzzyTokenTier(ratio: Ratio)
    requires ratio("jonathan", "johnathan") == 1600.0 / 17.0
    ensures Classify("jonathan", "johnathan", ratio) == Some(Scored(FuzzyToken, 16.0 / 17.0))
  {
    var desc := "johnathan";
    SplitJohnathan();
    forall i | 0 <= i <= |desc| ensures !("jonathan" <= desc[i..]) {
      if i == 0 {
        assert desc[i..][2] != "jonathan"[2];
      } else if i == 1 {
        assert desc[i..][0] != "jonathan"[0];
      }
    }
    assert BestTokenScore("jonathan", ["johnathan"], ratio) == 16.0 / 17.0;
    FuzzyTokenTier("jonathan", desc, ratio);
  }
}
