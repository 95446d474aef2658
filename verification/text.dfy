/**
 * The Java string operations the search pipeline relies on, written out with
 * their Java semantics: substring containment, ASCII lower-casing, the
 * whitespace tokenizer `split("\\s+")`, the literal `replace`, the first
 * piece of `split("&")` and the non-overlapping occurrence count.
 */
module Text {
  import opened Wrappers

  /** `p` is a prefix of `s` (Java `s.startsWith(p)`). */
  predicate IsPrefix(p: string, s: string) {
    |p| <= |s| && s[..|p|] == p
  }

  /** `p` occurs in `s` at some position (Java `s.contains(p)`). */
  predicate Contains(s: string, p: string) {
    exists i | 0 <= i <= |s| :: IsPrefix(p, s[i..])
  }

  lemma ContainsEmpty(s: string)
    ensures Contains(s, "")
  {
    assert IsPrefix("", s[0..]);
  }

  /** Containment is transitive: a text that contains `p` contains every substring of `p`. */
  lemma ContainsTransitive(s: string, p: string, q: string)
    requires Contains(s, p) && Contains(p, q)
    ensures Contains(s, q)
  {
    var i :| 0 <= i <= |s| && IsPrefix(p, s[i..]);
    var j :| 0 <= j <= |p| && IsPrefix(q, p[j..]);
    assert s[i + j..][..|q|] == p[j..][..|q|];
    assert IsPrefix(q, s[i + j..]);
  }

  /** A string that is a prefix of `s` is contained in it. */
  lemma PrefixContained(p: string, s: string)
    requires IsPrefix(p, s)
    ensures Contains(s, p)
  {
    assert s[0..] == s;
  }

  /** Containment in a suffix implies containment in the whole string. */
  lemma ContainsInSuffix(s: string, k: nat, p: string)
    requires k <= |s| && Contains(s[k..], p)
    ensures Contains(s, p)
  {
    var i :| 0 <= i <= |s[k..]| && IsPrefix(p, s[k..][i..]);
    assert s[k..][i..] == s[k + i..];
  }

  /** Lower-cases one character; only ASCII letters change. */
  function LowerChar(c: char): char {
    if 'A' <= c <= 'Z' then (c as int + 32) as char else c
  }

  /** Java `toLowerCase`, restricted to ASCII letters. */
  function ToLower(s: string): (r: string)
    ensures |r| == |s|
    ensures forall i :: 0 <= i < |s| ==> r[i] == LowerChar(s[i])
  {
    seq(|s|, i requires 0 <= i < |s| => LowerChar(s[i]))
  }

  lemma ToLowerIdempotent(s: string)
    ensures ToLower(ToLower(s)) == ToLower(s)
  {
  }

  predicate IsUpper(c: char) {
    'A' <= c <= 'Z'
  }

  /**
   * What lower-casing does: no ASCII capital is left, and a string comes
   * back unchanged exactly when it has none; each capital becomes the
   * letter 32 code points above it, and every other character stays.
   */
  lemma ToLowerMeaning(s: string)
    ensures |ToLower(s)| == |s|
    ensures forall i :: 0 <= i < |s| ==> !IsUpper(ToLower(s)[i])
    ensures ToLower(s) == s <==> forall i :: 0 <= i < |s| ==> !IsUpper(s[i])
    ensures forall i :: 0 <= i < |s| && IsUpper(s[i]) ==> ToLower(s)[i] as int == s[i] as int + 32
    ensures forall i :: 0 <= i < |s| && !IsUpper(s[i]) ==> ToLower(s)[i] == s[i]
  {
    if ToLower(s) == s {
      forall i | 0 <= i < |s| ensures !IsUpper(s[i]) {
        assert ToLower(s)[i] == s[i];
      }
    }
  }

  /** The characters of the Java regex class `\s`: space, tab, line feed, vertical tab, form feed, carriage return. */
  predicate IsSpace(c: char) {
    c == ' ' || c == '\t' || c == '\n' || c == 11 as char || c == 12 as char || c == '\r'
  }

  predicate NoSpace(s: string) {
    forall i :: 0 <= i < |s| ==> !IsSpace(s[i])
  }

  /** Drops the whitespace run at the front of `s`. */
  function DropSpaces(s: string): (r: string)
    ensures |r| <= |s|
    ensures r == [] || !IsSpace(r[0])
  {
    if s != [] && IsSpace(s[0]) then DropSpaces(s[1..]) else s
  }

  /**
   * The pieces between maximal whitespace runs, before Java drops trailing
   * empty pieces: a leading run yields a leading empty piece, a trailing run
   * a trailing empty piece.
   */
  function Pieces(s: string): (r: seq<string>)
    ensures |r| >= 1
    ensures forall k :: 0 <= k < |r| ==> NoSpace(r[k])
    decreases |s|
  {
    if s == [] then [""]
    else if IsSpace(s[0]) then [""] + Pieces(DropSpaces(s[1..]))
    else
      var p := Pieces(s[1..]);
      [[s[0]] + p[0]] + p[1..]
  }

  /** Removes trailing empty strings (the `limit == 0` behaviour of Java `split`). */
  function DropTrailingEmpty(ps: seq<string>): (r: seq<string>)
    ensures |r| <= |ps| && r == ps[..|r|]
    ensures r != [] ==> r[|r| - 1] != ""
    ensures forall k :: |r| <= k < |ps| ==> ps[k] == ""
  {
    if ps == [] then []
    else if ps[|ps| - 1] == "" then DropTrailingEmpty(ps[..|ps| - 1])
    else ps
  }

  /**
   * Java `s.split("\\s+")`: a string without whitespace is returned whole
   * (so "" gives [""]); otherwise the pieces between whitespace runs, with a
   * leading empty piece kept and trailing empty pieces dropped.
   */
  function Tokens(s: string): (r: seq<string>)
    ensures forall k :: 0 <= k < |r| ==> NoSpace(r[k])
  {
    if NoSpace(s) then [s] else DropTrailingEmpty(Pieces(s))
  }

  /** A query that starts with whitespace and has a non-blank character yields a leading empty token. */
  lemma {:induction false} LeadingSpaceGivesEmptyToken(s: string)
    requires s != [] && IsSpace(s[0])
    requires exists i :: 0 <= i < |s| && !IsSpace(s[i])
    ensures Tokens(s) != [] && Tokens(s)[0] == ""
  {
    var i :| 0 <= i < |s| && !IsSpace(s[i]);
    assert !NoSpace(s);
    var ps := Pieces(s);
    var k := PiecesHasNonEmpty(s, i);
    assert ps[0] == "";
    var r := DropTrailingEmpty(ps);
    assert |r| > k;
  }

  /** A string with a non-blank character has a non-empty piece; its index is returned. */
  lemma {:induction false} PiecesHasNonEmpty(s: string, i: nat) returns (k: nat)
    requires i < |s| && !IsSpace(s[i])
    ensures k < |Pieces(s)| && Pieces(s)[k] != ""
    decreases |s|
  {
    if IsSpace(s[0]) {
      var t := DropSpaces(s[1..]);
      DropSpacesKeepsTail(s[1..], i - 1);
      var d := |s[1..]| - |t|;
      assert t[i - 1 - d] == s[i];
      var k' := PiecesHasNonEmpty(t, i - 1 - d);
      k := k' + 1;
    } else {
      k := 0;
    }
  }

  /** Dropping a leading whitespace run keeps the tail after position `i` in place. */
  lemma {:induction false} DropSpacesKeepsTail(s: string, i: nat)
    requires i < |s| && !IsSpace(s[i])
    ensures |s| - |DropSpaces(s)| <= i
    ensures DropSpaces(s) == s[|s| - |DropSpaces(s)|..]
    decreases |s|
  {
    if s != [] && IsSpace(s[0]) {
      DropSpacesKeepsTail(s[1..], i - 1);
      assert s[1..][|s[1..]| - |DropSpaces(s[1..])|..] == s[|s| - |DropSpaces(s)|..];
    }
  }

  /** A whitespace-free string is one piece. */
  lemma {:induction false} PiecesNoSpaceSingle(s: string)
    requires NoSpace(s)
    ensures Pieces(s) == [s]
    decreases |s|
  {
    if s != [] {
      assert NoSpace(s[1..]);
      PiecesNoSpaceSingle(s[1..]);
      assert [s[0]] + s[1..] == s;
    }
  }

  // ------------------------------------------------- words: a reference for Tokens

  /** The longest whitespace-free prefix of `s`. */
  function Run(s: string): (r: string)
    ensures IsPrefix(r, s) && NoSpace(r)
    ensures |r| < |s| ==> IsSpace(s[|r|])
    ensures s != [] && !IsSpace(s[0]) ==> r != []
  {
    if s == [] || IsSpace(s[0]) then [] else [s[0]] + Run(s[1..])
  }

  /**
   * The words of `s`: its maximal non-empty whitespace-free runs, left to
   * right. This is what a whitespace tokenizer is meant to return, written
   * independently of the piece-by-piece definition of `Tokens`.
   */
  function Words(s: string): seq<string>
    decreases |s|
  {
    var t := DropSpaces(s);
    if t == [] then [] else [Run(t)] + Words(t[|Run(t)|..])
  }

  /** `s` with every whitespace character deleted. */
  function RemoveSpaces(s: string): string {
    if s == [] then [] else (if IsSpace(s[0]) then [] else [s[0]]) + RemoveSpaces(s[1..])
  }

  function Concat(ws: seq<string>): string {
    if ws == [] then [] else ws[0] + Concat(ws[1..])
  }

  /** `[""]` when `b` holds, else nothing: the empty piece a whitespace run leaves at either end. */
  function EdgePiece(b: bool): seq<string> {
    if b then [""] else []
  }

  /** The dropped run is whitespace and what is left is a suffix of `s`. */
  lemma {:induction false} DropSpacesSuffix(s: string)
    ensures DropSpaces(s) == s[|s| - |DropSpaces(s)|..]
    ensures forall i :: 0 <= i < |s| - |DropSpaces(s)| ==> IsSpace(s[i])
    decreases |s|
  {
    if s != [] && IsSpace(s[0]) {
      DropSpacesSuffix(s[1..]);
      assert s[1..][|s[1..]| - |DropSpaces(s[1..])|..] == s[|s| - |DropSpaces(s)|..];
      forall i | 0 <= i < |s| - |DropSpaces(s)| ensures IsSpace(s[i]) {
        if i > 0 {
          assert s[i] == s[1..][i - 1];
        }
      }
    }
  }

  lemma DropSpacesIdempotent(s: string)
    ensures DropSpaces(DropSpaces(s)) == DropSpaces(s)
  {
    var t := DropSpaces(s);
    assert t == [] || !IsSpace(t[0]);
  }

  lemma {:induction false} DropSpacesRemove(s: string)
    ensures RemoveSpaces(DropSpaces(s)) == RemoveSpaces(s)
    decreases |s|
  {
    if s != [] && IsSpace(s[0]) {
      DropSpacesRemove(s[1..]);
    }
  }

  /** Deleting whitespace from a text that starts with a word keeps the word and continues after it. */
  lemma {:induction false} RunRemove(t: string)
    ensures RemoveSpaces(t) == Run(t) + RemoveSpaces(t[|Run(t)|..])
    decreases |t|
  {
    if t != [] && !IsSpace(t[0]) {
      RunRemove(t[1..]);
      var w := Run(t[1..]);
      assert t[1..][|w|..] == t[|Run(t)|..];
      assert Run(t) == [t[0]] + w;
    } else {
      assert t[0..] == t;
    }
  }

  /** Concatenating the words gives the text with its whitespace removed. */
  lemma {:induction false} WordsConcat(s: string)
    ensures Concat(Words(s)) == RemoveSpaces(s)
    decreases |s|
  {
    var t := DropSpaces(s);
    DropSpacesRemove(s);
    if t != [] {
      var w := Run(t);
      WordsConcat(t[|w|..]);
      RunRemove(t);
    }
  }

  /** Every word is non-empty, free of whitespace and a substring of `s`. */
  lemma {:induction false} WordsShape(s: string)
    ensures forall k :: 0 <= k < |Words(s)| ==>
              Words(s)[k] != "" && NoSpace(Words(s)[k]) && Contains(s, Words(s)[k])
    decreases |s|
  {
    var t := DropSpaces(s);
    if t != [] {
      var w := Run(t);
      var ws := Words(s);
      var d := |s| - |t|;
      DropSpacesSuffix(s);
      WordsShape(t[|w|..]);
      assert ws == [w] + Words(t[|w|..]);
      forall k | 0 <= k < |ws| ensures ws[k] != "" && NoSpace(ws[k]) && Contains(s, ws[k]) {
        if k == 0 {
          assert s[d..] == t;
          PrefixContained(w, s[d..]);
          ContainsInSuffix(s, d, w);
        } else {
          assert ws[k] == Words(t[|w|..])[k - 1];
          ContainsInSuffix(t, |w|, ws[k]);
          assert s[d..] == t;
          ContainsInSuffix(s, d, ws[k]);
        }
      }
    }
  }

  /** There are no words exactly when the text is all whitespace. */
  lemma WordsEmpty(s: string)
    ensures Words(s) == [] <==> forall i :: 0 <= i < |s| ==> IsSpace(s[i])
  {
    var t := DropSpaces(s);
    DropSpacesSuffix(s);
    if t != [] {
      assert s[|s| - |t|] == t[0];
    }
  }

  /** Leading whitespace does not change the words. */
  lemma WordsDropSpaces(s: string)
    ensures Words(DropSpaces(s)) == Words(s)
  {
    DropSpacesIdempotent(s);
  }

  /** `Pieces` glues the characters of a word one by one onto the first piece of the rest. */
  lemma {:induction false} PiecesRun(s: string)
    requires s != [] && !IsSpace(s[0])
    ensures Pieces(s) == [Run(s) + Pieces(s[|Run(s)|..])[0]] + Pieces(s[|Run(s)|..])[1..]
    decreases |s|
  {
    var p := Pieces(s[1..]);
    if s[1..] != [] && !IsSpace(s[1..][0]) {
      PiecesRun(s[1..]);
      var w := Run(s[1..]);
      var q := Pieces(s[|Run(s)|..]);
      assert s[1..][|w|..] == s[|Run(s)|..];
      assert p == [w + q[0]] + q[1..];
      assert p[0] == w + q[0] && p[1..] == q[1..];
      assert Run(s) == [s[0]] + w;
      assert [s[0]] + (w + q[0]) == Run(s) + q[0];
    } else {
      assert Run(s) == [s[0]];
    }
  }

  /**
   * The pieces are the words, with an empty piece in front when `s` starts
   * with whitespace and one at the end when `s` is empty or ends with it.
   */
  predicate PiecesAreWords(s: string) {
    Pieces(s) == EdgePiece(s != [] && IsSpace(s[0])) + Words(s) + EdgePiece(s == [] || IsSpace(s[|s| - 1]))
  }

  lemma {:induction false} PiecesWords(s: string)
    ensures PiecesAreWords(s)
    decreases |s|
  {
    if s == [] {
      assert Pieces(s) == [""];
    } else if IsSpace(s[0]) {
      PiecesWords(DropSpaces(s));
      PiecesWordsLeadSpace(s);
    } else if |Run(s)| == |s| {
      PiecesWordsLastWord(s);
    } else {
      PiecesWords(DropSpaces(s[|Run(s)|..]));
      PiecesWordsWord(s);
    }
  }

  /** The step for a text that starts with whitespace, given the pieces of the rest. */
  lemma PiecesWordsLeadSpace(s: string)
    requires s != [] && IsSpace(s[0])
    requires PiecesAreWords(DropSpaces(s))
    ensures PiecesAreWords(s)
  {
    var t := DropSpaces(s);
    assert t == DropSpaces(s[1..]);
    assert Pieces(s) == [""] + Pieces(t);
    TrailingAgrees(s);
    WordsDropSpaces(s);
    JoinSpace(Words(s), EdgePiece(t != [] && IsSpace(t[0])), EdgePiece(t == [] || IsSpace(t[|t| - 1])),
              EdgePiece(IsSpace(s[|s| - 1])));
  }

  /** The bookkeeping of that step: an empty piece in front of pieces that have none. */
  lemma JoinSpace(ws: seq<string>, a: seq<string>, b: seq<string>, e: seq<string>)
    requires a == [] && b == e
    ensures [""] + (a + ws + b) == [""] + ws + e
  {
    assert a + ws + b == ws + e;
  }

  /** The step for a text that is one word. */
  lemma PiecesWordsLastWord(s: string)
    requires s != [] && !IsSpace(s[0]) && |Run(s)| == |s|
    ensures PiecesAreWords(s)
  {
    var w := Run(s);
    PiecesRun(s);
    assert s[|w|..] == [];
    assert DropSpaces(s) == s;
    assert Words(s) == [w] + Words([]);
    assert w == s;
  }

  /** The step for a text that starts with a word followed by whitespace, given the pieces after that run. */
  lemma PiecesWordsWord(s: string)
    requires s != [] && !IsSpace(s[0]) && |Run(s)| < |s|
    requires PiecesAreWords(DropSpaces(s[|Run(s)|..]))
    ensures PiecesAreWords(s)
  {
    var w := Run(s);
    var v := DropSpaces(s[|w|..]);
    LastAfterRun(s);
    PiecesAfterRun(s);
    WordsAfterRun(s);
    JoinWord(w, Words(v), EdgePiece(v != [] && IsSpace(v[0])), EdgePiece(v == [] || IsSpace(v[|v| - 1])),
             EdgePiece(IsSpace(s[|s| - 1])));
  }

  /** The bookkeeping of that step: a word in front of pieces with no leading empty piece. */
  lemma JoinWord(w: string, ws: seq<string>, a: seq<string>, b: seq<string>, e: seq<string>)
    requires a == [] && b == e
    ensures [w] + (a + ws + b) == [] + ([w] + ws) + e
  {
    assert a + ws + b == ws + e;
  }

  lemma PiecesAfterRun(s: string)
    requires s != [] && !IsSpace(s[0]) && |Run(s)| < |s|
    ensures Pieces(s) == [Run(s)] + Pieces(DropSpaces(s[|Run(s)|..]))
  {
    var u := s[|Run(s)|..];
    PiecesRun(s);
    assert DropSpaces(u) == DropSpaces(u[1..]);
    assert Pieces(u) == [""] + Pieces(DropSpaces(u));
  }

  lemma WordsAfterRun(s: string)
    requires s != [] && !IsSpace(s[0])
    ensures Words(s) == [Run(s)] + Words(DropSpaces(s[|Run(s)|..]))
  {
    assert DropSpaces(s) == s;
    WordsDropSpaces(s[|Run(s)|..]);
  }

  /** After the first word and the whitespace run that follows it, the text ends in whitespace (or is empty) exactly when `s` does. */
  lemma LastAfterRun(s: string)
    requires s != [] && !IsSpace(s[0]) && |Run(s)| < |s|
    ensures var v := DropSpaces(s[|Run(s)|..]);
            EdgePiece(v != [] && IsSpace(v[0])) == []
            && EdgePiece(v == [] || IsSpace(v[|v| - 1])) == EdgePiece(IsSpace(s[|s| - 1]))
            && EdgePiece(s != [] && IsSpace(s[0])) == []
            && EdgePiece(s == [] || IsSpace(s[|s| - 1])) == EdgePiece(IsSpace(s[|s| - 1]))
  {
    var u := s[|Run(s)|..];
    TrailingAgrees(u);
    assert s[|s| - 1] == u[|u| - 1];
  }

  /** After a leading whitespace run, the last character is unchanged, or there is none and `s` ended in whitespace. */
  lemma TrailingAgrees(s: string)
    requires s != [] && IsSpace(s[0])
    ensures var t := DropSpaces(s);
            (t == [] || IsSpace(t[|t| - 1])) == IsSpace(s[|s| - 1])
  {
    var t := DropSpaces(s);
    DropSpacesSuffix(s);
    if t != [] {
      assert t[|t| - 1] == s[|s| - 1];
    }
  }

  /** Dropping trailing empty pieces around non-empty words keeps the words and the leading piece, or leaves nothing. */
  lemma DropTrailingAroundWords(a: seq<string>, ws: seq<string>, b: seq<string>)
    requires a == [] || a == [""]
    requires b == [] || b == [""]
    requires forall k :: 0 <= k < |ws| ==> ws[k] != ""
    ensures DropTrailingEmpty(a + ws + b) == if ws == [] then [] else a + ws
  {
    var x := a + ws;
    if b == [""] {
      assert (x + b)[..|x|] == x;
    } else {
      assert x + b == x;
    }
    if ws != [] {
      assert x[|x| - 1] == ws[|ws| - 1];
    } else if a == [""] {
      assert x[..0] == [];
    }
  }

  /**
   * `split("\\s+")` returns the words of `s`, preceded by an empty token
   * exactly when `s` starts with whitespace and has a word; the empty string
   * gives `[""]` and a string of only whitespace gives no token at all.
   */
  lemma TokensAreWords(s: string)
    ensures Tokens(s) == if s == [] then [""]
                         else if IsSpace(s[0]) && Words(s) != [] then [""] + Words(s)
                         else Words(s)
  {
    if NoSpace(s) {
      if s != [] {
        WordsOfWord(s);
      }
    } else {
      PiecesWords(s);
      WordsShape(s);
      DropTrailingAroundWords(EdgePiece(IsSpace(s[0])), Words(s), EdgePiece(IsSpace(s[|s| - 1])));
    }
  }

  /** A non-empty whitespace-free string is a single word. */
  lemma WordsOfWord(s: string)
    requires s != [] && NoSpace(s)
    ensures Words(s) == [s]
  {
    assert DropSpaces(s) == s;
    assert Run(s) == s;
    assert s[|s|..] == [];
    assert Words(s) == [s] + Words([]);
  }

  /**
   * What the tokens of a query are: whitespace-free substrings of it that
   * spell it out with its whitespace removed; only the first may be empty,
   * and it is exactly when the query is empty or starts with whitespace
   * before some non-blank text; an all-whitespace query has no tokens.
   */
  lemma TokensMeaning(s: string)
    ensures Concat(Tokens(s)) == RemoveSpaces(s)
    ensures forall k :: 0 <= k < |Tokens(s)| ==> NoSpace(Tokens(s)[k]) && Contains(s, Tokens(s)[k])
    ensures forall k :: 0 < k < |Tokens(s)| ==> Tokens(s)[k] != ""
    ensures (Tokens(s) != [] && Tokens(s)[0] == "")
            <==> (s == [] || (IsSpace(s[0]) && exists i :: 0 <= i < |s| && !IsSpace(s[i])))
    ensures Tokens(s) == [] <==> (s != [] && forall i :: 0 <= i < |s| ==> IsSpace(s[i]))
  {
    TokensAreWords(s);
    WordsShape(s);
    WordsConcat(s);
    WordsEmpty(s);
    ContainsEmpty(s);
    var ts := Tokens(s);
    if s != [] && IsSpace(s[0]) && Words(s) != [] {
      assert ts == [""] + Words(s);
      assert Concat(ts) == "" + Concat(Words(s));
      forall k | 0 < k < |ts| ensures ts[k] == Words(s)[k - 1] { }
    } else if s == [] {
      assert Concat(ts) == "" + Concat([]);
    }
  }

  /**
   * Java `s.replace(pat, rep)` with a literal pattern: occurrences are
   * replaced left to right without overlap, and text produced by a
   * replacement is not scanned again.
   */
  function ReplaceAll(s: string, pat: string, rep: string): string
    requires |pat| > 0
    decreases |s|
  {
    if s == [] then []
    else if IsPrefix(pat, s) then rep + ReplaceAll(s[|pat|..], pat, rep)
    else [s[0]] + ReplaceAll(s[1..], pat, rep)
  }

  /** The number of non-overlapping left-to-right occurrences of `pat` in `s`. */
  function CountMatches(s: string, pat: string): nat
    requires |pat| > 0
    decreases |s|
  {
    if s == [] then 0
    else if IsPrefix(pat, s) then 1 + CountMatches(s[|pat|..], pat)
    else CountMatches(s[1..], pat)
  }

  /** Every replacement changes the length by `|rep| - |pat|`. */
  lemma {:induction false} ReplaceAllLength(s: string, pat: string, rep: string)
    requires |pat| > 0
    ensures |ReplaceAll(s, pat, rep)| == |s| + (|rep| - |pat|) * CountMatches(s, pat)
    decreases |s|
  {
    if s == [] {
    } else if IsPrefix(pat, s) {
      var rest := s[|pat|..];
      var d := |rep| - |pat|;
      var c := CountMatches(rest, pat);
      assert d * (1 + c) == d + d * c;
      ReplaceAllLength(rest, pat, rep);
      assert |ReplaceAll(s, pat, rep)| == |rep| + |ReplaceAll(rest, pat, rep)|;
      assert CountMatches(s, pat) == 1 + c;
    } else {
      ReplaceAllLength(s[1..], pat, rep);
    }
  }

  /** There is a match to count exactly when the pattern occurs. */
  lemma {:induction false} CountMatchesPositive(s: string, pat: string)
    requires |pat| > 0
    ensures CountMatches(s, pat) > 0 <==> Contains(s, pat)
    decreases |s|
  {
    if s == [] {
      assert forall i | 0 <= i <= |s| :: !IsPrefix(pat, s[i..]);
    } else if IsPrefix(pat, s) {
      PrefixContained(pat, s);
    } else {
      CountMatchesPositive(s[1..], pat);
      if Contains(s, pat) {
        var i :| 0 <= i <= |s| && IsPrefix(pat, s[i..]);
        assert i != 0;
        assert s[1..][i - 1..] == s[i..];
        assert Contains(s[1..], pat);
      }
      if Contains(s[1..], pat) {
        ContainsInSuffix(s, 1, pat);
      }
    }
  }

  /** Replacing a pattern that does not occur leaves the string unchanged. */
  lemma {:induction false} ReplaceAllAbsent(s: string, pat: string, rep: string)
    requires |pat| > 0 && !Contains(s, pat)
    ensures ReplaceAll(s, pat, rep) == s
    decreases |s|
  {
    if s != [] {
      if IsPrefix(pat, s) {
        PrefixContained(pat, s);
      }
      if Contains(s[1..], pat) {
        ContainsInSuffix(s, 1, pat);
      }
      ReplaceAllAbsent(s[1..], pat, rep);
    }
  }

  /** Index of the first occurrence of `c` in `s`, or `|s|` when there is none. */
  function IndexOf(s: string, c: char): (k: nat)
    ensures k <= |s|
    ensures k < |s| ==> s[k] == c
    ensures forall j :: 0 <= j < k ==> s[j] != c
  {
    if s == [] then 0 else if s[0] == c then 0 else 1 + IndexOf(s[1..], c)
  }

  /**
   * Java `s.split("&")[0]`. Without an `&` the array is `[s]`. A non-empty
   * string made only of `&` splits into empty pieces that are all trailing,
   * so the array is empty and indexing it throws `IndexOutOfBoundsException`
   * (`None`). Otherwise the first piece is the text before the first `&`.
   */
  function FirstAmpPiece(s: string): (r: Option<string>)
    ensures r.None? <==> |s| > 0 && forall i :: 0 <= i < |s| ==> s[i] == '&'
    ensures r.Some? ==> IsPrefix(r.value, s) && '&' !in r.value
    ensures r.Some? && |r.value| < |s| ==> s[|r.value|] == '&'
  {
    var k := IndexOf(s, '&');
    if k == |s| then Some(s)
    else if forall i :: 0 <= i < |s| ==> s[i] == '&' then None
    else if k == 0 then Some("")
    else Some(s[..k])
  }
}
