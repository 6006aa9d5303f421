/** The word lists of the game: parsing a fetched `/words/<n>.txt` file
    into the accepted words of length n, loading the lists for lengths 2..6,
    and drawing a secret word (with a fixed fallback per length). */
module Words {

  // ---------------------------------------------------------------------------
  // String primitives used by the parser
  // ---------------------------------------------------------------------------

  /** The characters `String.prototype.trim` strips: ECMAScript white space
      (tab, vertical tab, form feed, space, no-break space, byte-order mark
      and the space separators) and line terminators (LF, CR, LS, PS). */
  predicate IsSpace(c: char) {
    c == '\t' || c == '\n' || c == '\U{000B}' || c == '\U{000C}' || c == '\r' || c == ' ' ||
    c == '\U{00A0}' || c == '\U{FEFF}' || c == '\U{1680}' || ('\U{2000}' <= c <= '\U{200A}') ||
    c == '\U{2028}' || c == '\U{2029}' || c == '\U{202F}' || c == '\U{205F}' || c == '\U{3000}'
  }

  /** s without its leading white space: a suffix of s whose dropped prefix
      is all white space and which does not start with white space. */
  function TrimStart(s: string): (r: string)
    ensures |r| <= |s| && r == s[|s| - |r|..]
    ensures forall i :: 0 <= i < |s| - |r| ==> IsSpace(s[i])
    ensures r == [] || !IsSpace(r[0])
  {
    if |s| > 0 && IsSpace(s[0]) then TrimStart(s[1..]) else s
  }

  /** s without its trailing white space: a prefix of s whose dropped suffix
      is all white space and which does not end with white space. */
  function TrimEnd(s: string): (r: string)
    ensures |r| <= |s| && r == s[..|r|]
    ensures forall i :: |r| <= i < |s| ==> IsSpace(s[i])
    ensures r == [] || !IsSpace(r[|r| - 1])
  {
    if |s| > 0 && IsSpace(s[|s| - 1]) then TrimEnd(s[..|s| - 1]) else s
  }

  /** `s.trim()`. */
  function Trim(s: string): string {
    TrimEnd(TrimStart(s))
  }

  /** Trimming leaves a string that begins and ends with a non-space. */
  lemma TrimEnds(s: string)
    ensures var r := Trim(s);
      r == [] || (!IsSpace(r[0]) && !IsSpace(r[|r| - 1]))
  {
    var t := TrimStart(s);
    var r := TrimEnd(t);
    if r != [] {
      assert r[0] == t[0];
    }
  }

  /** Trimming cuts s at points `a` and `b` where only white space lies
      outside. */
  lemma TrimCut(s: string) returns (a: nat, b: nat)
    ensures a <= b <= |s| && Trim(s) == s[a..b]
    ensures forall i :: 0 <= i < a ==> IsSpace(s[i])
    ensures forall i :: b <= i < |s| ==> IsSpace(s[i])
  {
    var t := TrimStart(s);
    a := |s| - |t|;
    var r := TrimEnd(t);
    b := a + |r|;
    assert r == s[a..b];
    assert forall i :: b <= i < |s| ==> s[i] == t[i - a];
  }

  /** Trimming twice is trimming once. */
  lemma TrimIdempotent(s: string)
    ensures Trim(Trim(s)) == Trim(s)
  {
    TrimEnds(s);
  }

  /** `toUpperCase` on one character, for the ASCII letters. */
  function UpperChar(c: char): char {
    if 'a' <= c <= 'z' then (c as int - 'a' as int + 'A' as int) as char else c
  }

  /** `s.toUpperCase()` over ASCII: the same length, lower-case letters
      raised, every other character kept. */
  function ToUpper(s: string): (r: string)
    ensures |r| == |s|
    ensures NoLower(r)
    ensures NoLower(s) ==> r == s
    ensures forall i :: 0 <= i < |s| && 'a' <= s[i] <= 'z' ==> r[i] == s[i] - 'a' + 'A'
  {
    seq(|s|, i requires 0 <= i < |s| => UpperChar(s[i]))
  }

  /** Upper-casing neither makes nor removes white space. */
  lemma UpperKeepsSpace(c: char)
    ensures IsSpace(UpperChar(c)) <==> IsSpace(c)
  {
  }

  /** No ASCII lower-case letter in s. */
  predicate NoLower(s: string) {
    forall i :: 0 <= i < |s| ==> !('a' <= s[i] <= 'z')
  }

  /** `s.split('\n')`: the pieces between line feeds, in order (an empty
      text gives one empty piece, a trailing line feed an empty last piece). */
  function SplitLines(s: string): (r: seq<string>)
    ensures |r| >= 1
    ensures forall k :: 0 <= k < |r| ==> '\n' !in r[k]
  {
    if |s| == 0 then [""]
    else
      var rest := SplitLines(s[1..]);
      if s[0] == '\n' then [""] + rest else [[s[0]] + rest[0]] + rest[1..]
  }

  /** `pieces.join('\n')`. */
  function JoinLines(pieces: seq<string>): string
    requires |pieces| >= 1
  {
    if |pieces| == 1 then pieces[0] else pieces[0] + "\n" + JoinLines(pieces[1..])
  }

  /** Splitting loses nothing: joining the pieces gives the text back. */
  lemma {:induction false} JoinSplit(s: string)
    ensures JoinLines(SplitLines(s)) == s
  {
    if |s| > 0 {
      JoinSplit(s[1..]);
      var rest := SplitLines(s[1..]);
      if s[0] != '\n' {
        if |rest| > 1 {
          assert rest == [rest[0]] + rest[1..];
        }
      }
    }
  }

  /** Pieces free of line feeds are exactly what splitting their join gives. */
  lemma {:induction false} SplitJoin(pieces: seq<string>)
    requires |pieces| >= 1
    requires forall k :: 0 <= k < |pieces| ==> '\n' !in pieces[k]
    ensures SplitLines(JoinLines(pieces)) == pieces
    decreases |JoinLines(pieces)|
  {
    var p := pieces[0];
    if |p| > 0 {
      var tail := [p[1..]] + pieces[1..];
      assert JoinLines(pieces) == [p[0]] + JoinLines(tail) by {
        if |pieces| > 1 {
          assert JoinLines(tail) == p[1..] + "\n" + JoinLines(pieces[1..]);
        }
      }
      assert forall k :: 0 <= k < |tail| ==> '\n' !in tail[k] by {
        assert forall c :: c in p[1..] ==> c in p;
      }
      SplitJoin(tail);
      assert [p[0]] + p[1..] == p && tail[1..] == pieces[1..];
      assert [[p[0]] + p[1..]] + tail[1..] == pieces;
    } else if |pieces| > 1 {
      SplitJoin(pieces[1..]);
      assert JoinLines(pieces) == "\n" + JoinLines(pieces[1..]);
      assert JoinLines(pieces)[1..] == JoinLines(pieces[1..]);
    }
  }

  // ---------------------------------------------------------------------------
  // Parsing a word file (fetchWords)
  // ---------------------------------------------------------------------------

  /** One line of a word file as the game reads it: trimmed and upper-cased.
      It has no lower-case letter and neither starts nor ends with white
      space. */
  function Normalise(line: string): (w: string)
    ensures NoLower(w)
    ensures w == [] || (!IsSpace(w[0]) && !IsSpace(w[|w| - 1]))
  {
    var r := Trim(line);
    TrimEnds(line);
    if r == [] then ToUpper(r)
    else
      UpperKeepsSpace(r[0]);
      UpperKeepsSpace(r[|r| - 1]);
      ToUpper(r)
  }

  /** `lines.map(word => word.trim().toUpperCase())`. */
  function NormaliseAll(lines: seq<string>): (r: seq<string>)
    ensures |r| == |lines|
    ensures forall j :: 0 <= j < |r| ==> NoLower(r[j])
    ensures forall j :: 0 <= j < |r| ==> r[j] == [] || (!IsSpace(r[j][0]) && !IsSpace(r[j][|r[j]| - 1]))
  {
    seq(|lines|, j requires 0 <= j < |lines| => Normalise(lines[j]))
  }

  /** `words.filter(word => word.length === length)`: the words of the
      length, in order. */
  function KeepOfLength(words: seq<string>, length: int): (r: seq<string>)
    ensures |r| <= |words|
    ensures forall k :: 0 <= k < |r| ==> |r[k]| == length
  {
    if |words| == 0 then []
    else
      var rest := KeepOfLength(words[1..], length);
      if |words[0]| == length then [words[0]] + rest else rest
  }

  /** Every kept word is one of the words. */
  lemma {:induction false} KeptFrom(words: seq<string>, length: int, k: nat) returns (j: nat)
    requires k < |KeepOfLength(words, length)|
    ensures j < |words| && words[j] == KeepOfLength(words, length)[k]
  {
    if |words[0]| == length && k == 0 {
      j := 0;
    } else {
      var i := if |words[0]| == length then k - 1 else k;
      var j' := KeptFrom(words[1..], length, i);
      j := j' + 1;
    }
  }

  /** Every word of the length is kept. */
  lemma {:induction false} Kept(words: seq<string>, length: int, j: nat)
    requires j < |words| && |words[j]| == length
    ensures words[j] in KeepOfLength(words, length)
  {
    if j > 0 {
      Kept(words[1..], length, j - 1);
      assert words[1..][j - 1] == words[j];
    }
  }

  /** `text.split('\n').map(word => word.trim().toUpperCase())
      .filter(word => word.length === length)`: the accepted words of a file. */
  function ParseWordList(text: string, length: int): (r: seq<string>)
    ensures forall k :: 0 <= k < |r| ==> |r[k]| == length
  {
    KeepOfLength(NormaliseAll(SplitLines(text)), length)
  }

  /** Every accepted word is the normalised form of a line of the file. */
  lemma ParsedFromLine(text: string, length: int, k: nat) returns (j: nat)
    requires k < |ParseWordList(text, length)|
    ensures var w := ParseWordList(text, length)[k];
      && j < |SplitLines(text)| && Normalise(SplitLines(text)[j]) == w
  {
    var lines := SplitLines(text);
    j := KeptFrom(NormaliseAll(lines), length, k);
  }

  /** Every accepted word has no lower-case letter and neither starts nor
      ends with white space. */
  lemma ParsedWellFormed(text: string, length: int)
    ensures forall k :: 0 <= k < |ParseWordList(text, length)| ==>
      var w := ParseWordList(text, length)[k];
      NoLower(w) && (w == [] || (!IsSpace(w[0]) && !IsSpace(w[|w| - 1])))
  {
    var r := ParseWordList(text, length);
    forall k | 0 <= k < |r|
      ensures NoLower(r[k]) && (r[k] == [] || (!IsSpace(r[k][0]) && !IsSpace(r[k][|r[k]| - 1])))
    {
      var j := ParsedFromLine(text, length, k);
      var line := SplitLines(text)[j];
      var w := Normalise(line);
      assert NoLower(w) && (w == [] || (!IsSpace(w[0]) && !IsSpace(w[|w| - 1])));
    }
  }

  /** Every line whose normalised form has the requested length is accepted. */
  lemma LineParsed(text: string, length: int, j: nat)
    requires j < |SplitLines(text)| && |Normalise(SplitLines(text)[j])| == length
    ensures Normalise(SplitLines(text)[j]) in ParseWordList(text, length)
  {
    Kept(NormaliseAll(SplitLines(text)), length, j);
  }

  /** A line that is already an upper-case word without white space is its
      own normal form. */
  lemma NormaliseKeeps(s: string)
    requires NoLower(s) && forall c :: c in s ==> !IsSpace(c)
    ensures Normalise(s) == s
  {
    assert TrimStart(s) == s by {
      assert s == [] || !IsSpace(s[0]);
    }
    assert TrimEnd(s) == s by {
      assert s == [] || !IsSpace(s[|s| - 1]);
    }
  }

  /** A list whose words all have the length passes the filter unchanged. */
  lemma {:induction false} KeepAll(words: seq<string>, length: int)
    requires forall k :: 0 <= k < |words| ==> |words[k]| == length
    ensures KeepOfLength(words, length) == words
  {
    if |words| > 0 {
      KeepAll(words[1..], length);
      assert [words[0]] + words[1..] == words;
    }
  }

  /** A file holding upper-case words one per line yields exactly those
      words, in order and with their repetitions. */
  lemma ParseJoined(words: seq<string>, length: int)
    requires |words| >= 1
    requires forall k :: 0 <= k < |words| ==> |words[k]| == length && NoLower(words[k])
    requires forall k :: 0 <= k < |words| ==> forall c :: c in words[k] ==> !IsSpace(c)
    ensures ParseWordList(JoinLines(words), length) == words
  {
    forall k | 0 <= k < |words|
      ensures '\n' !in words[k]
    {
      assert IsSpace('\n');
    }
    SplitJoin(words);
    forall k | 0 <= k < |words|
      ensures Normalise(words[k]) == words[k]
    {
      NormaliseKeeps(words[k]);
    }
    assert NormaliseAll(words) == words;
    KeepAll(words, length);
  }

  // ---------------------------------------------------------------------------
  // Loading the lists (loadAllWords) and drawing a secret (getNewRandomWord)
  // ---------------------------------------------------------------------------

  /** The shortest and longest word lengths the game loads. */
  const MinLength := 2
  const MaxLength := 6

  /** Every list holds only words of its own length. */
  predicate WellFormedLists(lists: map<int, seq<string>>) {
    forall n :: n in lists ==> forall k :: 0 <= k < |lists[n]| ==> |lists[n][k]| == n
  }

  /** The lists as loaded on mount: for each length 2..6 the parsed file, or
      an empty list when the fetch failed (a length missing from `fetched`). */
  method LoadAllWords(fetched: map<int, string>) returns (lists: map<int, seq<string>>)
    ensures forall n :: n in lists <==> MinLength <= n <= MaxLength
    ensures forall n :: n in lists ==>
      lists[n] == if n in fetched then ParseWordList(fetched[n], n) else []
    ensures WellFormedLists(lists)
  {
    lists := map[];
    for i := MinLength to MaxLength + 1
      invariant forall n :: n in lists <==> MinLength <= n < i
      invariant forall n :: n in lists ==>
        lists[n] == if n in fetched then ParseWordList(fetched[n], n) else []
      invariant WellFormedLists(lists)
    {
      var words := [];
      if i in fetched {
        words := ParseWordList(fetched[i], i);
      }
      lists := lists[i := words];
    }
  }

  /** The secret used when no word of the length is loaded. */
  function Fallback(length: int): string {
    if length == 2 then "HI"
    else if length == 3 then "TEE"
    else if length == 4 then "FOUR"
    else if length == 5 then "HELLO"
    else if length == 6 then "SIXERS"
    else "WORD"
  }

  /** A fallback for a length the game supports has that length. */
  lemma FallbackLength(length: int)
    requires MinLength <= length <= MaxLength
    ensures |Fallback(length)| == length && NoLower(Fallback(length))
  {
  }

  /** `Math.floor(random * n)` for `random` in [0, 1): an index into a list of n. */
  function PickIndex(random: real, n: nat): (r: int)
    requires 0.0 <= random < 1.0 && n > 0
    ensures 0 <= r < n
  {
    var x := random * n as real;
    assert x < n as real;
    x.Floor
  }

  /** `getNewRandomWord(length)`, with the value of `Math.random()` given as
      `random`: a word of the list for the length, or the fallback when that
      list is missing or empty. */
  function NewRandomWord(lists: map<int, seq<string>>, length: int, random: real): (r: string)
    requires 0.0 <= random < 1.0
    ensures length in lists && |lists[length]| > 0 ==> r in lists[length]
    ensures !(length in lists && |lists[length]| > 0) ==> r == Fallback(length)
  {
    if length in lists && |lists[length]| > 0 then
      lists[length][PickIndex(random, |lists[length]|)]
    else Fallback(length)
  }

  /** With well-formed lists, the secret for a supported length has that length. */
  lemma NewRandomWordLength(lists: map<int, seq<string>>, length: int, random: real)
    requires 0.0 <= random < 1.0 && WellFormedLists(lists)
    requires MinLength <= length <= MaxLength
    ensures |NewRandomWord(lists, length, random)| == length
  {
    FallbackLength(length);
  }

  /** Every word of a non-empty list can be drawn. */
  lemma EveryWordDrawable(lists: map<int, seq<string>>, length: int, k: nat)
    requires length in lists && k < |lists[length]|
    ensures NewRandomWord(lists, length, k as real / |lists[length]| as real) == lists[length][k]
  {
    var n := |lists[length]|;
    var random := k as real / n as real;
    assert random * n as real == k as real;
    assert k as real < n as real;
    assert random < 1.0;
    assert PickIndex(random, n) == k;
  }
}
