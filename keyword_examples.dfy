/** The extractor on the questions of the test table in
    internal/memory/memory_test.go. Each literal question is taken apart into
    pieces small enough to evaluate, then put together with the general
    lemmas about fields and keywords. */
module KeywordExamples {
  import opened Strings
  import opened Keywords

  /** The keywords of a question whose tokens are known: the admissible
      tokens, given as a strictly sorted list. */
  lemma KeywordsFromTokens(question: string, ts: seq<string>, ks: seq<string>)
    requires Tokens(question) == ts && StrictlySorted(ks)
    requires forall i :: 0 <= i < |ts| ==> (ts[i] in ks <==> Admissible(ts[i]))
    requires forall k :: k in ks ==> k in ts
    ensures KeywordsOf(question) == ks
  {
    forall w ensures w in ks <==> w in Tokens(question) && Admissible(w) {
      if w in ts {
        var i :| 0 <= i < |ts| && ts[i] == w;
      }
    }
    KeywordsAre(question, ks);
  }

  /** The words of the examples that the filters keep. */
  lemma Kept(w: string)
    requires w in ["list", "files", "directory", "git", "commit", "amend", "docker", "find", "go"]
    ensures Admissible(w)
  {
  }

  /** The words of the examples that the filters drop: stop words, and "i"
      and "a", which are also too short. */
  lemma DroppedWords()
    ensures !Admissible("how") && !Admissible("do") && !Admissible("i")
    ensures !Admissible("in") && !Admissible("a") && !Admissible("the") && !Admissible("an")
  {
  }

  // ------------------------------------ "how do I list files in a directory"

  /** Three words joined by spaces. */
  lemma JoinThree(w0: string, w1: string, w2: string)
    ensures Join([w0, w1, w2], " ") == w0 + " " + w1 + " " + w2
  {
    assert [w0, w1, w2][1..] == [w1, w2];
    assert [w1, w2][1..] == [w2];
    assert Join([w1, w2], " ") == w1 + " " + w2;
    assert w0 + " " + (w1 + " " + w2) == w0 + " " + w1 + " " + w2;
  }

  /** Four words joined by spaces. */
  lemma JoinFour(w0: string, w1: string, w2: string, w3: string)
    ensures Join([w0, w1, w2, w3], " ") == w0 + " " + w1 + " " + w2 + " " + w3
  {
    assert [w0, w1, w2, w3][1..] == [w1, w2, w3];
    JoinThree(w1, w2, w3);
    assert w0 + " " + (w1 + " " + w2 + " " + w3) == w0 + " " + w1 + " " + w2 + " " + w3;
  }

  /** A question that is lower-case words joined by spaces has those words
      as its tokens. */
  lemma TokensOfLowerWords(question: string, ws: seq<string>)
    requires forall k :: 0 <= k < |ws| ==> IsWord(ws[k]) && NoUpper(ws[k])
    requires Join(ws, " ") == question
    ensures Tokens(question) == ws
  {
    TokensOfJoin(ws);
  }

  lemma FieldsHowDoIList(a: string)
    requires a == "how do I list"
    ensures Fields(ToLower(a)) == ["how", "do", "i", "list"]
  {
    assert ToLower(a) == "how do i list";
    JoinFour("how", "do", "i", "list");
    assert "how" + " " + "do" + " " + "i" + " " + "list" == "how do i list";
    FieldsOfJoin(["how", "do", "i", "list"]);
  }

  lemma FieldsFilesInADirectory(b: string)
    requires b == " files in a directory"
    ensures b[0] == ' ' && Fields(b[1..]) == ["files", "in", "a", "directory"]
  {
    var c := b[1..];
    assert c == "files in a directory";
    JoinFour("files", "in", "a", "directory");
    assert "files" + " " + "in" + " " + "a" + " " + "directory" == "files in a directory";
    FieldsOfJoin(["files", "in", "a", "directory"]);
  }

  /** The tokens of a question in two pieces, the second starting with a
      separator and already lower-case. */
  lemma TokensOfPieces(a: string, b: string, ta: seq<string>, tb: seq<string>)
    requires Fields(ToLower(a)) == ta
    requires b != [] && IsSeparator(b[0]) && ToLower(b) == b && Fields(b[1..]) == tb
    ensures Tokens(a + b) == ta + tb
  {
    ToLowerAppend(a, b);
    FieldsSplit(ToLower(a), b);
  }

  lemma TokensListFiles(a: string, b: string)
    requires a == "how do I list" && b == " files in a directory"
    ensures Tokens(a + b) == ["how", "do", "i", "list"] + ["files", "in", "a", "directory"]
  {
    FieldsHowDoIList(a);
    ToLowerOfLower(b);
    FieldsFilesInADirectory(b);
    TokensOfPieces(a, b, ["how", "do", "i", "list"], ["files", "in", "a", "directory"]);
  }

  lemma FilterListFiles(ts: seq<string>, ks: seq<string>)
    requires ts == ["how", "do", "i", "list"] + ["files", "in", "a", "directory"]
    requires ks == ["directory", "files", "list"]
    ensures forall i :: 0 <= i < |ts| ==> (ts[i] in ks <==> Admissible(ts[i]))
    ensures forall k :: k in ks ==> k in ts
  {
    assert ts == ["how", "do", "i", "list", "files", "in", "a", "directory"];
    Kept("list"); Kept("files"); Kept("directory");
    DroppedWords();
    assert ts[7] == ks[0] && ts[4] == ks[1] && ts[3] == ks[2];
  }

  /** Stop words and the one-letter "I" and "a" go; the rest comes out sorted. */
  lemma ListFilesExample(question: string)
    requires question == "how do I list" + " files in a directory"
    ensures KeywordsOf(question) == ["directory", "files", "list"]
  {
    var ts := ["how", "do", "i", "list"] + ["files", "in", "a", "directory"];
    var ks := ["directory", "files", "list"];
    TokensListFiles("how do I list", " files in a directory");
    FilterListFiles(ts, ks);
    assert Less("directory", "files") && Less("files", "list") && Less("directory", "list");
    KeywordsFromTokens(question, ts, ks);
  }

  // ------------------------------------------------------ "git commit amend"

  lemma FilterGitCommitAmend(ts: seq<string>, ks: seq<string>)
    requires ts == ["git", "commit", "amend"] && ks == ["amend", "commit", "git"]
    ensures forall i :: 0 <= i < |ts| ==> (ts[i] in ks <==> Admissible(ts[i]))
    ensures forall k :: k in ks ==> k in ts
  {
    Kept("git"); Kept("commit"); Kept("amend");
    assert ts[0] == ks[2] && ts[1] == ks[1] && ts[2] == ks[0];
  }

  lemma GitCommitAmendExample(question: string)
    requires question == "git commit amend"
    ensures KeywordsOf(question) == ["amend", "commit", "git"]
  {
    var ts, ks := ["git", "commit", "amend"], ["amend", "commit", "git"];
    JoinThree("git", "commit", "amend");
    TokensOfLowerWords(question, ts);
    FilterGitCommitAmend(ts, ks);
    assert Less("amend", "commit") && Less("commit", "git") && Less("amend", "git");
    KeywordsFromTokens(question, ts, ks);
  }

  // -------------------------------------------------------------- "the a an"

  lemma OnlyStopWordsExample(question: string)
    requires question == "the a an"
    ensures KeywordsOf(question) == []
  {
    var ts := ["the", "a", "an"];
    JoinThree("the", "a", "an");
    TokensOfLowerWords(question, ts);
    DroppedWords();
    assert forall w :: w in ts ==> w == "the" || w == "a" || w == "an";
    NoKeywordsIff(question);
  }

  // -------------------------------------------------- "docker docker DOCKER"

  lemma TokensDocker(question: string, ts: seq<string>)
    requires question == "docker docker DOCKER" && ts == ["docker", "docker", "docker"]
    ensures Tokens(question) == ts
  {
    assert ToLower(question) == "docker docker docker";
    JoinThree("docker", "docker", "docker");
    assert "docker" + " " + "docker" + " " + "docker" == "docker docker docker";
    FieldsOfJoin(ts);
  }

  lemma FilterDocker(ts: seq<string>, ks: seq<string>)
    requires ts == ["docker", "docker", "docker"] && ks == ["docker"]
    ensures forall i :: 0 <= i < |ts| ==> (ts[i] in ks <==> Admissible(ts[i]))
    ensures forall k :: k in ks ==> k in ts
  {
    Kept("docker");
    assert ts[0] == ks[0];
  }

  /** Repetitions, in any case, give one keyword. */
  lemma DockerExample(question: string)
    requires question == "docker docker DOCKER"
    ensures KeywordsOf(question) == ["docker"]
  {
    var ts, ks := ["docker", "docker", "docker"], ["docker"];
    TokensDocker(question, ts);
    FilterDocker(ts, ks);
    KeywordsFromTokens(question, ts, ks);
  }

  // -------------------------------------------------------- "find .go files"

  lemma FieldsFind(a: string)
    requires a == "find"
    ensures ToLower(a) == a && Fields(a) == ["find"]
  {
    ToLowerOfLower(a);
    FieldsOfWordThen(a, "");
    assert a + "" == a;
  }

  lemma FieldsDotGoFiles(b: string)
    requires b == " .go files"
    ensures ToLower(b) == b && b[0] == ' '
    ensures Fields(b[1..]) == ["go", "files"]
  {
    ToLowerOfLower(b);
    var c := b[1..];
    assert c[0] == '.' && c[1..] == "go files";
    assert Join(["go", "files"], " ") == "go files";
    FieldsOfJoin(["go", "files"]);
  }

  lemma TokensFindGoFiles(a: string, b: string)
    requires a == "find" && b == " .go files"
    ensures Tokens(a + b) == ["find", "go", "files"]
  {
    FieldsFind(a);
    FieldsDotGoFiles(b);
    TokensOfPieces(a, b, ["find"], ["go", "files"]);
  }

  lemma FilterFindGoFiles(ts: seq<string>, ks: seq<string>)
    requires ts == ["find", "go", "files"] && ks == ["files", "find", "go"]
    ensures forall i :: 0 <= i < |ts| ==> (ts[i] in ks <==> Admissible(ts[i]))
    ensures forall k :: k in ks ==> k in ts
  {
    Kept("find"); Kept("go"); Kept("files");
    assert ts[0] == ks[1] && ts[1] == ks[2] && ts[2] == ks[0];
  }

  /** Punctuation separates: ".go" gives the token "go". */
  lemma FindGoFilesExample(question: string)
    requires question == "find" + " .go files"
    ensures KeywordsOf(question) == ["files", "find", "go"]
  {
    var ts, ks := ["find", "go", "files"], ["files", "find", "go"];
    TokensFindGoFiles("find", " .go files");
    FilterFindGoFiles(ts, ks);
    assert Less("files", "find") && Less("find", "go") && Less("files", "go");
    KeywordsFromTokens(question, ts, ks);
  }
}
