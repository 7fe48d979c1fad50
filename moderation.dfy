/** The body check of the `isValidChrip` handler: a body of at most 140
    bytes is accepted and cleaned word by word (a word is what lies between
    single spaces; a word whose lower-case form is one of three fixed bad
    words becomes "****"), a longer body is rejected as too long. */
module Moderation {

  /** Longest accepted body, in bytes of its UTF-8 encoding (Go's `len`). */
  const MaxChirpLength: nat := 140

  const BadWords: seq<string> := ["kerfuffle", "sharbert", "fornax"]

  /** What replaces a bad word. */
  const Mask: string := "****"

  /** Bytes UTF-8 spends on one code point. */
  function Utf8Width(c: char): (n: nat)
    ensures 1 <= n <= 4
    ensures n == 1 <==> (c as int) < 0x80
  {
    if (c as int) < 0x80 then 1
    else if (c as int) < 0x800 then 2
    else if (c as int) < 0x1_0000 then 3
    else 4
  }

  /** Length in bytes of the UTF-8 encoding of `s`. */
  function ByteLength(s: string): (n: nat)
    ensures |s| <= n <= 4 * |s|
    ensures n == |s| <==> forall i :: 0 <= i < |s| ==> (s[i] as int) < 0x80
  {
    if s == [] then 0
    else
      assert forall i :: 1 <= i < |s| ==> s[i] == s[1..][i - 1];
      Utf8Width(s[0]) + ByteLength(s[1..])
  }

  lemma {:induction false} ByteLengthAppend(a: string, b: string)
    ensures ByteLength(a + b) == ByteLength(a) + ByteLength(b)
    decreases |a|
  {
    if a != [] {
      assert (a + b)[0] == a[0] && (a + b)[1..] == a[1..] + b;
      ByteLengthAppend(a[1..], b);
    } else {
      assert a + b == b;
    }
  }

  /** ASCII lower-casing of one character. */
  function LowerChar(c: char): (d: char)
    ensures 'A' <= c <= 'Z' ==> 'a' <= d <= 'z' && (d as int) - (c as int) == 32
    ensures !('A' <= c <= 'Z') ==> d == c
  {
    if 'A' <= c <= 'Z' then ((c as int) + 32) as char else c
  }

  /** `strings.ToLower`, on ASCII letters only: no capital is left, and
      every other character is kept. */
  function ToLower(s: string): (r: string)
    ensures |r| == |s|
    ensures forall i :: 0 <= i < |s| ==> r[i] == LowerChar(s[i])
    ensures forall i :: 0 <= i < |r| ==> !('A' <= r[i] <= 'Z')
    ensures forall i :: 0 <= i < |s| && !('A' <= s[i] <= 'Z') ==> r[i] == s[i]
  {
    seq(|s|, i requires 0 <= i < |s| => LowerChar(s[i]))
  }

  /** A word is profane when its lower-case form is one of the bad words. */
  predicate IsProfane(word: string)
  {
    ToLower(word) in BadWords
  }

  /** What the cleaner puts in place of one word. */
  function CleanWord(word: string): string
  {
    if IsProfane(word) then Mask else word
  }

  /** A profane word has at least six letters, the length of the shortest
      bad word, so masking it never lengthens it. */
  lemma ProfaneNotShorterThanMask(word: string)
    requires IsProfane(word)
    ensures |word| >= 6 > |Mask|
  {
    assert |ToLower(word)| >= 6;
  }

  /** A cleaned word is never profane: the mask itself is not a bad word. */
  lemma CleanWordNotProfane(word: string)
    ensures !IsProfane(CleanWord(word))
  {
    assert ToLower(Mask) == Mask;
  }

  function CleanWords(words: seq<string>): (r: seq<string>)
    ensures |r| == |words|
    ensures forall i :: 0 <= i < |words| ==> r[i] == CleanWord(words[i])
  {
    seq(|words|, i requires 0 <= i < |words| => CleanWord(words[i]))
  }

  /** `strings.Split(s, " ")`: the pieces between single spaces; "" splits
      into [""], and adjacent spaces give empty pieces. */
  function Split(s: string): (r: seq<string>)
    ensures |r| >= 1
    ensures forall i :: 0 <= i < |r| ==> ' ' !in r[i]
    decreases |s|
  {
    if s == [] then [""]
    else
      var rest := Split(s[1..]);
      if s[0] == ' ' then [""] + rest
      else [[s[0]] + rest[0]] + rest[1..]
  }

  /** `strings.Join(words, " ")`. */
  function Join(words: seq<string>): string
    decreases |words|
  {
    if words == [] then ""
    else if |words| == 1 then words[0]
    else words[0] + " " + Join(words[1..])
  }

  /** The cleaner's result as a function of the body. */
  function Clean(body: string): string
  {
    Join(CleanWords(Split(body)))
  }

  /** Joining the pieces of a split gives back the string. */
  lemma {:induction false} JoinSplit(s: string)
    ensures Join(Split(s)) == s
    decreases |s|
  {
    if s != [] {
      JoinSplit(s[1..]);
      var rest := Split(s[1..]);
      if s[0] == ' ' {
        assert Split(s) == [""] + rest;
        assert s == [' '] + s[1..];
      } else {
        var ws := Split(s);
        assert ws == [[s[0]] + rest[0]] + rest[1..];
        if |rest| == 1 {
          assert s == [s[0]] + rest[0];
        } else {
          assert ws[1..] == rest[1..];
          assert Join(rest) == rest[0] + " " + Join(rest[1..]);
          assert s == [s[0]] + s[1..];
        }
      }
    }
  }

  /** Splitting a join of space-free words gives back the words. */
  lemma {:induction false} SplitJoin(words: seq<string>)
    requires |words| >= 1
    requires forall i :: 0 <= i < |words| ==> ' ' !in words[i]
    ensures Split(Join(words)) == words
    decreases |words|, |words[0]|
  {
    var w := words[0];
    var s := Join(words);
    if w == [] {
      if |words| > 1 {
        assert s[0] == ' ' && s[1..] == Join(words[1..]) by {
          assert s == " " + Join(words[1..]);
        }
        SplitJoin(words[1..]);
        assert words == [""] + words[1..];
      }
    } else {
      var words' := [w[1..]] + words[1..];
      assert s[0] == w[0] && s[1..] == Join(words') by {
        if |words| > 1 {
          assert words'[1..] == words[1..];
        }
      }
      assert Split(Join(words')) == words' by {
        assert ' ' !in w[1..] by {
          assert forall i :: 0 <= i < |w[1..]| ==> w[1..][i] == w[i + 1];
        }
        assert forall i :: 1 <= i < |words'| ==> words'[i] == words[i];
        SplitJoin(words');
      }
      assert s != [] && s[0] != ' ';
      assert Split(s) == [[w[0]] + w[1..]] + words[1..];
      assert [w[0]] + w[1..] == w;
      assert words == [w] + words[1..];
    }
  }

  /** Cleaning keeps the number of words. */
  lemma CleanKeepsWordCount(body: string)
    ensures |Split(Clean(body))| == |Split(body)|
  {
    CleanedWordsSplit(body);
  }

  /** The words of the cleaned body are the body's words, each replaced by
      "****" exactly when it is profane and otherwise left as it was. */
  lemma CleanWordwise(body: string)
    ensures var words, cleaned := Split(body), Split(Clean(body));
      |cleaned| == |words| &&
      forall i :: 0 <= i < |words| ==>
        (IsProfane(words[i]) ==> cleaned[i] == Mask) &&
        (!IsProfane(words[i]) ==> cleaned[i] == words[i])
  {
    CleanedWordsSplit(body);
  }

  /** The cleaned body splits back into the cleaned words. */
  lemma CleanedWordsSplit(body: string)
    ensures Split(Clean(body)) == CleanWords(Split(body))
  {
    var cleaned := CleanWords(Split(body));
    forall i | 0 <= i < |cleaned|
      ensures ' ' !in cleaned[i]
    {
      assert ' ' !in Mask;
    }
    SplitJoin(cleaned);
  }

  /** A body without a bad word comes back unchanged. */
  lemma CleanWithoutBadWords(body: string)
    requires forall i :: 0 <= i < |Split(body)| ==> !IsProfane(Split(body)[i])
    ensures Clean(body) == body
  {
    assert CleanWords(Split(body)) == Split(body);
    JoinSplit(body);
  }

  /** Cleaning twice is cleaning once: "****" is not profane. */
  lemma CleanIdempotent(body: string)
    ensures Clean(Clean(body)) == Clean(body)
  {
    var cleaned := Clean(body);
    CleanedWordsSplit(body);
    forall i | 0 <= i < |Split(cleaned)|
      ensures !IsProfane(Split(cleaned)[i])
    {
      CleanWordNotProfane(Split(body)[i]);
    }
    CleanWithoutBadWords(cleaned);
  }

  /** Cleaning never lengthens a body: "****" is shorter than every bad
      word, so an accepted body stays within the limit once cleaned. */
  lemma CleanNeverLonger(body: string)
    ensures ByteLength(Clean(body)) <= ByteLength(body)
  {
    var words := Split(body);
    JoinSplit(body);
    JoinNotLonger(CleanWords(words), words);
  }

  lemma {:induction false} JoinNotLonger(short: seq<string>, long: seq<string>)
    requires |short| == |long|
    requires forall i :: 0 <= i < |long| ==> short[i] == CleanWord(long[i])
    ensures ByteLength(Join(short)) <= ByteLength(Join(long))
    decreases |long|
  {
    if long != [] {
      assert ByteLength(short[0]) <= ByteLength(long[0]) by {
        if IsProfane(long[0]) {
          ProfaneNotShorterThanMask(long[0]);
        }
      }
      if |long| > 1 {
        JoinNotLonger(short[1..], long[1..]);
        ByteLengthAppend(short[0] + " ", Join(short[1..]));
        ByteLengthAppend(short[0], " ");
        ByteLengthAppend(long[0] + " ", Join(long[1..]));
        ByteLengthAppend(long[0], " ");
      }
    }
  }

  /** The word-cleaning loop of `isValidChrip`. */
  method CleanBody(body: string) returns (cleaned: string)
    ensures cleaned == Clean(body)
  {
    var words := Split(body);
    var cleanedWords: seq<string> := [];
    var i := 0;
    while i < |words|
      invariant 0 <= i <= |words|
      invariant |cleanedWords| == i
      invariant forall t :: 0 <= t < i ==> cleanedWords[t] == CleanWord(words[t])
    {
      var word := words[i];
      var isProfane := false;
      var j := 0;
      while j < |BadWords|
        invariant 0 <= j <= |BadWords|
        invariant !isProfane && |cleanedWords| == i
        invariant forall t :: 0 <= t < j ==> ToLower(word) != BadWords[t]
      {
        if ToLower(word) == BadWords[j] {
          cleanedWords := cleanedWords + [Mask];
          isProfane := true;
          break;
        }
        j := j + 1;
      }
      if !isProfane {
        assert !IsProfane(word);
        cleanedWords := cleanedWords + [word];
      }
      assert cleanedWords[i] == CleanWord(word);
      i := i + 1;
    }
    assert cleanedWords == CleanWords(words);
    cleaned := Join(cleanedWords);
  }

  /** What the handler answers for a body. */
  datatype Verdict = TooLong | Cleaned(body: string)

  /** The length check and cleaning of `isValidChrip`, without the HTTP
      request and response. */
  method CheckChirp(body: string) returns (v: Verdict)
    ensures v.TooLong? <==> ByteLength(body) > MaxChirpLength
    ensures v.Cleaned? ==> v.body == Clean(body) && ByteLength(v.body) <= MaxChirpLength
  {
    if ByteLength(body) <= MaxChirpLength {
      var cleaned := CleanBody(body);
      CleanNeverLonger(body);
      v := Cleaned(cleaned);
    } else {
      v := TooLong;
    }
  }
}
