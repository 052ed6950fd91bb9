/** The keyword extractor of internal/memory/keywords.go: a question becomes the
    sorted list of its distinct tokens that are at least two characters long and
    are not stop words. Tokens are runs of letters and digits of the lower-cased
    question; since letters and digits are ASCII here, a token's character count
    is also its length in bytes, which is what the source's length test measures. */
module Keywords {
  import opened Strings

  /** The stop-word list the extractor drops. */
  predicate StopWord(w: string) {
    match w
    case "how" | "do" | "i" | "to" | "the" | "a" | "an" | "in" => true
    case "on" | "for" | "is" | "it" | "of" | "and" | "or" | "with" => true
    case "from" | "by" | "at" | "as" | "this" | "that" | "what" | "which" => true
    case "where" | "when" | "who" | "why" | "can" | "will" | "my" | "me" => true
    case "all" | "if" | "not" | "but" | "so" | "up" | "out" | "about" => true
    case "into" | "just" | "get" | "make" | "use" => true
    case _ => false
  }

  /** A token the extractor keeps. */
  predicate Admissible(w: string) { |w| >= 2 && !StopWord(w) }

  /** The tokens of a question, in order, duplicates included. */
  function Tokens(question: string): (ts: seq<string>)
    ensures forall k :: 0 <= k < |ts| ==> IsWord(ts[k]) && NoUpper(ts[k])
  {
    FieldsAreWords(ToLower(question));
    Fields(ToLower(question))
  }

  predicate NoDuplicates(s: seq<string>) {
    forall i, j :: 0 <= i < j < |s| ==> s[i] != s[j]
  }

  predicate Sorted(s: seq<string>) {
    forall i, j :: 0 <= i < j < |s| ==> LessEq(s[i], s[j])
  }

  /** Sorted with no element twice: each element strictly precedes the next. */
  predicate StrictlySorted(s: seq<string>) {
    forall i, j :: 0 <= i < j < |s| ==> Less(s[i], s[j])
  }

  /** The admissible tokens in order of first occurrence: what the loop collects. */
  function FirstAdmissible(words: seq<string>): (ks: seq<string>)
    ensures NoDuplicates(ks)
    ensures forall w :: w in ks <==> w in words && Admissible(w)
  {
    if words == [] then []
    else
      var prev := FirstAdmissible(words[..|words| - 1]);
      var w := words[|words| - 1];
      assert words == words[..|words| - 1] + [w];
      if !Admissible(w) || w in prev then prev else prev + [w]
  }

  /** One step of the collecting loop. */
  lemma FirstAdmissibleStep(words: seq<string>, i: nat)
    requires i < |words|
    ensures var prev := FirstAdmissible(words[..i]);
            FirstAdmissible(words[..i + 1]) ==
              if |words[i]| < 2 || StopWord(words[i]) || words[i] in prev then prev else prev + [words[i]]
  {
    assert words[..i + 1][..i] == words[..i];
  }

  // ------------------------------------------------------------------ sorting

  lemma LessEqTransitive(a: string, b: string, c: string)
    requires LessEq(a, b) && LessEq(b, c)
    ensures LessEq(a, c)
  {
    if a != b && b != c { LessTransitive(a, b, c); }
  }

  /** Insertion into a sorted list: one step of the sort. */
  function Insert(w: string, s: seq<string>): (r: seq<string>)
    ensures multiset(r) == multiset(s) + multiset{w}
    ensures Sorted(s) ==> Sorted(r)
  {
    if s == [] then [w]
    else if LessEq(w, s[0]) then
      InsertFront(w, s);
      [w] + s
    else
      var r' := Insert(w, s[1..]);
      assert s == [s[0]] + s[1..];
      InsertBehind(w, s, r');
      [s[0]] + r'
  }

  lemma InsertFront(w: string, s: seq<string>)
    requires s != [] && LessEq(w, s[0])
    ensures Sorted(s) ==> Sorted([w] + s)
  {
    if Sorted(s) {
      forall j | 0 <= j < |s| ensures LessEq(w, s[j]) {
        if j > 0 { LessEqTransitive(w, s[0], s[j]); }
      }
    }
  }

  lemma InsertBehind(w: string, s: seq<string>, r': seq<string>)
    requires s != [] && !LessEq(w, s[0])
    requires multiset(r') == multiset(s[1..]) + multiset{w}
    ensures Sorted(s) && Sorted(r') ==> Sorted([s[0]] + r')
  {
    LessTotal(w, s[0]);
    if Sorted(s) && Sorted(r') {
      forall j | 0 <= j < |r'| ensures LessEq(s[0], r'[j]) {
        assert r'[j] in multiset(r');
        if r'[j] != w {
          assert r'[j] in multiset(s[1..]);
          var k :| 0 <= k < |s[1..]| && s[1..][k] == r'[j];
          assert s[k + 1] == r'[j];
        }
      }
    }
  }

  lemma {:induction false} InsertDistinct(w: string, s: seq<string>)
    requires NoDuplicates(s) && w !in s
    ensures NoDuplicates(Insert(w, s))
  {
    if s != [] && !LessEq(w, s[0]) {
      assert s == [s[0]] + s[1..];
      InsertDistinct(w, s[1..]);
      var r' := Insert(w, s[1..]);
      assert s[0] !in r' by {
        assert multiset(s[1..])[s[0]] == 0;
        assert multiset(r')[s[0]] == 0;
      }
    }
  }

  /** `sort.Strings`, by insertion: a sorted permutation of its input. */
  function SortStrings(s: seq<string>): (r: seq<string>)
    ensures multiset(r) == multiset(s)
    ensures Sorted(r)
  {
    if s == [] then []
    else
      assert s == [s[0]] + s[1..];
      Insert(s[0], SortStrings(s[1..]))
  }

  lemma {:induction false} SortStringsDistinct(s: seq<string>)
    requires NoDuplicates(s)
    ensures NoDuplicates(SortStrings(s))
  {
    if s != [] {
      assert s == [s[0]] + s[1..];
      SortStringsDistinct(s[1..]);
      var r' := SortStrings(s[1..]);
      assert s[0] !in r' by {
        assert multiset(s[1..])[s[0]] == 0;
        assert multiset(r')[s[0]] == 0;
      }
      InsertDistinct(s[0], r');
    }
  }

  lemma SortedDistinctIsStrict(s: seq<string>)
    requires Sorted(s) && NoDuplicates(s)
    ensures StrictlySorted(s)
  {
  }

  // ---------------------------------------------------------------- extractor

  /** What `extractKeywords` returns. */
  function KeywordsOf(question: string): (ks: seq<string>)
    ensures StrictlySorted(ks)
    ensures forall k :: 0 <= k < |ks| ==> IsWord(ks[k]) && NoUpper(ks[k])
  {
    var ts := Tokens(question);
    var firsts := FirstAdmissible(ts);
    var ks := SortStrings(firsts);
    SortedFirstsStrict(firsts);
    SortStringsMembers(firsts);
    SortedFirstsWords(ts, ks);
    ks
  }

  /** Sorting distinct strings leaves them strictly ascending. */
  lemma SortedFirstsStrict(firsts: seq<string>)
    requires NoDuplicates(firsts)
    ensures StrictlySorted(SortStrings(firsts))
  {
    SortStringsDistinct(firsts);
    SortedDistinctIsStrict(SortStrings(firsts));
  }

  /** Every keyword is a lower-case word. */
  lemma SortedFirstsWords(ts: seq<string>, ks: seq<string>)
    requires forall k :: 0 <= k < |ts| ==> IsWord(ts[k]) && NoUpper(ts[k])
    requires forall w :: w in ks ==> w in ts
    ensures forall k :: 0 <= k < |ks| ==> IsWord(ks[k]) && NoUpper(ks[k])
  {
    forall k | 0 <= k < |ks| ensures IsWord(ks[k]) && NoUpper(ks[k]) {
      MemberIsWord(ts, ks[k]);
    }
  }

  /** The keywords are exactly the admissible tokens of the question. */
  lemma KeywordsOfMembers(question: string)
    ensures forall w :: w in KeywordsOf(question) <==> w in Tokens(question) && Admissible(w)
    ensures forall k :: 0 <= k < |KeywordsOf(question)| ==> Admissible(KeywordsOf(question)[k])
  {
    SortStringsMembers(FirstAdmissible(Tokens(question)));
  }

  /** Sorting keeps exactly the elements it is given. */
  lemma SortStringsMembers(s: seq<string>)
    ensures forall w :: w in SortStrings(s) <==> w in s
  {
    var r := SortStrings(s);
    forall w ensures w in r <==> w in s {
      assert w in r <==> w in multiset(r);
      assert w in s <==> w in multiset(s);
    }
  }

  lemma MemberIsWord(ts: seq<string>, w: string)
    requires forall k :: 0 <= k < |ts| ==> IsWord(ts[k]) && NoUpper(ts[k])
    requires w in ts
    ensures IsWord(w) && NoUpper(w)
  {
    var j :| 0 <= j < |ts| && ts[j] == w;
  }

  /** `extractKeywords`: collect first occurrences of admissible tokens, then sort. */
  method ExtractKeywords(question: string) returns (keywords: seq<string>)
    ensures keywords == KeywordsOf(question)
  {
    var words := Fields(ToLower(question));
    var seen: set<string> := {};
    keywords := [];
    for i := 0 to |words|
      invariant keywords == FirstAdmissible(words[..i])
      invariant forall w :: w in seen <==> w in keywords
    {
      var w := words[i];
      FirstAdmissibleStep(words, i);
      if |w| < 2 || StopWord(w) || w in seen {
        continue;
      }
      seen := seen + {w};
      keywords := keywords + [w];
    }
    assert words[..|words|] == words;
    keywords := SortStrings(keywords);
  }

  // -------------------------------------------------------------- properties

  /** A strictly sorted list is determined by its elements. */
  lemma {:induction false} StrictlySortedUnique(a: seq<string>, b: seq<string>)
    requires StrictlySorted(a) && StrictlySorted(b)
    requires forall w :: w in a <==> w in b
    ensures a == b
  {
    if a != [] { assert a[0] in a; }
    if b != [] { assert b[0] in b; }
    if a != [] && b != [] {
      if a[0] != b[0] {
        var i :| 0 <= i < |b| && b[i] == a[0];
        var j :| 0 <= j < |a| && a[j] == b[0];
        assert Less(b[0], a[0]) by { if i == 0 { } }
        assert Less(a[0], b[0]) by { if j == 0 { } }
        LessAsymmetric(a[0], b[0]);
      }
      forall w ensures w in a[1..] <==> w in b[1..] {
        if w in a[1..] {
          var i :| 1 <= i < |a| && a[i] == w;
          LessIrreflexive(w);
        }
        if w in b[1..] {
          var i :| 1 <= i < |b| && b[i] == w;
          LessIrreflexive(w);
        }
        assert w in a <==> w == a[0] || w in a[1..];
        assert w in b <==> w == b[0] || w in b[1..];
      }
      StrictlySortedUnique(a[1..], b[1..]);
      assert a == [a[0]] + a[1..] && b == [b[0]] + b[1..];
    }
  }

  /** The extractor's result is the one strictly sorted list of the
      admissible tokens. */
  lemma KeywordsAre(question: string, ks: seq<string>)
    requires StrictlySorted(ks)
    requires forall w :: w in ks <==> w in Tokens(question) && Admissible(w)
    ensures KeywordsOf(question) == ks
  {
    KeywordsOfMembers(question);
    StrictlySortedUnique(KeywordsOf(question), ks);
  }

  /** The result depends only on which admissible tokens occur: not on their
      order, their case, their repetitions or the words dropped around them. */
  lemma SameAdmissibleTokensSameKeywords(q1: string, q2: string)
    requires forall w :: Admissible(w) ==> (w in Tokens(q1) <==> w in Tokens(q2))
    ensures KeywordsOf(q1) == KeywordsOf(q2)
  {
    KeywordsOfMembers(q1);
    KeywordsOfMembers(q2);
    StrictlySortedUnique(KeywordsOf(q1), KeywordsOf(q2));
  }

  /** The tokens of a space-joined keyword list are that list. */
  lemma TokensOfJoin(ks: seq<string>)
    requires forall k :: 0 <= k < |ks| ==> IsWord(ks[k]) && NoUpper(ks[k])
    ensures Tokens(Join(ks, " ")) == ks
  {
    JoinNoUpper(ks);
    ToLowerOfLower(Join(ks, " "));
    FieldsOfJoin(ks);
  }

  /** Extraction is stable on its own output: re-extracting from the stored tag
      string gives the same keywords. */
  lemma KeywordsOfJoinedKeywords(question: string)
    ensures KeywordsOf(Join(KeywordsOf(question), " ")) == KeywordsOf(question)
  {
    var ks := KeywordsOf(question);
    TokensOfJoin(ks);
    KeywordsOfMembers(question);
    KeywordsOfMembers(Join(ks, " "));
    StrictlySortedUnique(KeywordsOf(Join(ks, " ")), ks);
  }

  /** The result is empty exactly when no token survives the filters; in
      particular the empty question gives no keywords and no error. */
  lemma NoKeywordsIff(question: string)
    ensures KeywordsOf(question) == [] <==> forall w :: w in Tokens(question) ==> !Admissible(w)
    ensures KeywordsOf("") == []
  {
    KeywordsOfMembers(question);
    if KeywordsOf(question) != [] {
      assert KeywordsOf(question)[0] in KeywordsOf(question);
    }
  }
}
