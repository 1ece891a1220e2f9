/**
 * The whitespace handling of Python strings that the RTTM parser and the
 * transcriber rely on: `str.isspace`, `str.strip()` and `str.split()` with
 * no arguments, and the space-separated join used to write RTTM lines.
 */
module Text {

  /** Python's `str.isspace` for one character (the characters Python's unicode tables mark as whitespace). */
  predicate IsSpace(c: char)
  {
    var n := c as int;
    n == 0x20 || 0x09 <= n <= 0x0D || 0x1C <= n <= 0x1F || n == 0x85 || n == 0xA0 || n == 0x1680 ||
    0x2000 <= n <= 0x200A || n == 0x2028 || n == 0x2029 || n == 0x202F || n == 0x205F || n == 0x3000
  }

  predicate AllSpace(s: string)
  {
    forall i :: 0 <= i < |s| ==> IsSpace(s[i])
  }

  /** A field of a split line: non-empty and free of whitespace. */
  predicate IsToken(w: string)
  {
    w != [] && forall i :: 0 <= i < |w| ==> !IsSpace(w[i])
  }

  lemma TokenConcat(a: string, b: string)
    requires IsToken(a) && IsToken(b)
    ensures IsToken(a + b)
  {
  }

  /** Neither end of `s` is whitespace: what `strip()` leaves behind. */
  predicate Trimmed(s: string)
  {
    s == [] || (!IsSpace(s[0]) && !IsSpace(s[|s| - 1]))
  }

  /** `s` without its leading whitespace. */
  function TrimStart(s: string): (r: string)
    ensures |r| <= |s| && r == s[|s| - |r|..]
    ensures AllSpace(s[..|s| - |r|])
    ensures r == [] || !IsSpace(r[0])
  {
    if s != [] && IsSpace(s[0]) then TrimStart(s[1..]) else s
  }

  /** `s` without its trailing whitespace. */
  function TrimEnd(s: string): (r: string)
    ensures |r| <= |s| && r == s[..|r|]
    ensures AllSpace(s[|r|..])
    ensures r == [] || !IsSpace(r[|r| - 1])
  {
    if s != [] && IsSpace(s[|s| - 1]) then
      var r := TrimEnd(s[..|s| - 1]);
      assert s[..|s| - 1][..|r|] == s[..|r|];
      assert s[|r|..] == s[..|s| - 1][|r|..] + [s[|s| - 1]];
      r
    else
      assert s[|s|..] == [];
      s
  }

  /** `r` is the slice of `s` that starts at `i`, with nothing but whitespace before and after it. */
  predicate FramedAt(s: string, r: string, i: int)
  {
    0 <= i <= |s| - |r| && r == s[i..i + |r|] && AllSpace(s[..i]) && AllSpace(s[i + |r|..])
  }

  /** `r` is a slice of `s` with nothing but whitespace around it. */
  ghost predicate Framed(s: string, r: string)
  {
    exists i :: FramedAt(s, r, i)
  }

  /** Python's `s.strip()`: the middle of `s` left after removing whitespace at both ends. */
  function Strip(s: string): (r: string)
    ensures Trimmed(r)
    ensures Framed(s, r)
  {
    TrimsFrame(s);
    TrimEnd(TrimStart(s))
  }

  lemma TrimsFrame(s: string)
    ensures Framed(s, TrimEnd(TrimStart(s)))
  {
    var t := TrimStart(s);
    var r := TrimEnd(t);
    var i := |s| - |t|;
    SuffixPrefix(s, t, r);
    assert FramedAt(s, r, i);
  }

  /** A prefix `r` of a suffix `t` of `s`, and what follows it, as slices of `s`. */
  lemma SuffixPrefix<T>(s: seq<T>, t: seq<T>, r: seq<T>)
    requires |t| <= |s| && t == s[|s| - |t|..]
    requires |r| <= |t| && r == t[..|r|]
    ensures r == s[|s| - |t|..|s| - |t| + |r|]
    ensures s[|s| - |t| + |r|..] == t[|r|..]
  {
  }

  /** Stripping removes exactly the whitespace around a trimmed core. */
  lemma StripAround(pre: string, w: string, post: string)
    requires AllSpace(pre) && AllSpace(post) && Trimmed(w) && w != []
    ensures Strip(pre + w + post) == w
  {
    assert pre + w + post == pre + (w + post);
    TrimStartSpaces(pre, w + post);
    TrimEndSpaces(w, post);
  }

  /** Leading whitespace is all that TrimStart removes. */
  lemma {:induction false} TrimStartSpaces(pre: string, s: string)
    requires AllSpace(pre) && s != [] && !IsSpace(s[0])
    ensures TrimStart(pre + s) == s
    decreases |pre|
  {
    if pre != [] {
      assert (pre + s)[0] == pre[0] && IsSpace(pre[0]);
      assert (pre + s)[1..] == pre[1..] + s;
      TrimStartSpaces(pre[1..], s);
    } else {
      assert pre + s == s;
    }
  }

  /** Trailing whitespace is all that TrimEnd removes. */
  lemma {:induction false} TrimEndSpaces(s: string, post: string)
    requires AllSpace(post) && s != [] && !IsSpace(s[|s| - 1])
    ensures TrimEnd(s + post) == s
    decreases |post|
  {
    if post != [] {
      var n := |post| - 1;
      assert (s + post)[..|s + post| - 1] == s + post[..n];
      TrimEndSpaces(s, post[..n]);
    }
  }

  /** The longest prefix of `s` that contains no whitespace. */
  function Word(s: string): (w: string)
    ensures |w| <= |s| && w == s[..|w|]
    ensures forall i :: 0 <= i < |w| ==> !IsSpace(w[i])
    ensures |w| < |s| ==> IsSpace(s[|w|])
    ensures s != [] && !IsSpace(s[0]) ==> w != []
  {
    if s == [] || IsSpace(s[0]) then [] else [s[0]] + Word(s[1..])
  }

  /** Python's `s.split()`: the maximal runs of non-whitespace characters, in order. */
  function Split(s: string): seq<string>
    decreases |s|
  {
    var t := TrimStart(s);
    if t == [] then []
    else
      var w := Word(t);
      [w] + Split(t[|w|..])
  }

  /** Every field of a split is a token. */
  lemma {:induction false} SplitTokens(s: string)
    ensures forall k :: 0 <= k < |Split(s)| ==> IsToken(Split(s)[k])
    decreases |s|
  {
    var t := TrimStart(s);
    if t != [] {
      var w := Word(t);
      SplitTokens(t[|w|..]);
      var rest := Split(t[|w|..]);
      assert Split(s) == [w] + rest;
      forall k | 0 <= k < |Split(s)|
        ensures IsToken(Split(s)[k])
      {
        if k > 0 {
          assert Split(s)[k] == rest[k - 1];
        }
      }
    }
  }

  /** Fields joined by single spaces: `" ".join(ws)`. */
  function Join(ws: seq<string>): (s: string)
  {
    if ws == [] then ""
    else if |ws| == 1 then ws[0]
    else ws[0] + " " + Join(ws[1..])
  }

  lemma {:induction false} WordOfToken(w: string, rest: string)
    requires IsToken(w) && (rest == [] || IsSpace(rest[0]))
    ensures Word(w + rest) == w
    decreases |w|
  {
    assert (w + rest)[1..] == w[1..] + rest;
    if |w| > 1 {
      WordOfToken(w[1..], rest);
    }
  }

  /** A token followed by whitespace (or nothing) is the first field of the split. */
  lemma SplitToken(w: string, rest: string)
    requires IsToken(w) && (rest == [] || IsSpace(rest[0]))
    ensures Split(w + rest) == [w] + Split(rest)
  {
    WordOfToken(w, rest);
    assert (w + rest)[|w|..] == rest;
  }

  /** Leading whitespace does not change the split. */
  lemma SplitSpace(c: char, rest: string)
    requires IsSpace(c)
    ensures Split([c] + rest) == Split(rest)
  {
    assert ([c] + rest)[1..] == rest;
  }

  /**
   * Splitting undoes joining: fields written with single spaces and followed by
   * trailing whitespace (a line terminator, say) are read back exactly.
   */
  lemma {:induction false} SplitJoin(ws: seq<string>, tail: string)
    requires forall k :: 0 <= k < |ws| ==> IsToken(ws[k])
    requires AllSpace(tail)
    ensures Split(Join(ws) + tail) == ws
    decreases |ws|
  {
    if ws == [] {
      assert Join(ws) + tail == tail;
      SplitAllSpace(tail);
    } else if |ws| == 1 {
      assert Join(ws) + tail == ws[0] + tail;
      assert Split(ws[0] + tail) == [ws[0]] by {
        SplitSingle(ws[0], tail);
      }
      assert [ws[0]] == ws;
    } else {
      SplitJoinStep(ws, tail);
    }
  }

  /** The case of SplitJoin with one field. */
  lemma SplitSingle(w: string, tail: string)
    requires IsToken(w) && AllSpace(tail)
    ensures Split(w + tail) == [w]
  {
    assert tail == [] || IsSpace(tail[0]);
    SplitToken(w, tail);
    SplitAllSpace(tail);
    assert [w] + [] == [w];
  }

  /** The case of SplitJoin with at least two fields: the first field, one space, then the rest. */
  lemma {:induction false} SplitJoinStep(ws: seq<string>, tail: string)
    requires forall k :: 0 <= k < |ws| ==> IsToken(ws[k])
    requires AllSpace(tail)
    requires |ws| > 1
    ensures Split(Join(ws) + tail) == ws
    decreases |ws|, 0
  {
    var rest := Join(ws[1..]) + tail;
    var line := ws[0] + ([' '] + rest);
    assert Join(ws) == ws[0] + " " + Join(ws[1..]);
    assert Join(ws) + tail == line;
    assert Split(line) == [ws[0]] + Split([' '] + rest) by {
      assert IsToken(ws[0]);
      assert IsSpace(([' '] + rest)[0]);
      SplitToken(ws[0], [' '] + rest);
    }
    assert Split([' '] + rest) == ws[1..] by {
      SplitSpace(' ', rest);
      SplitJoin(ws[1..], tail);
    }
    HeadTail(ws);
  }

  lemma HeadTail(ws: seq<string>)
    requires ws != []
    ensures [ws[0]] + ws[1..] == ws
  {
  }

  /** Nothing but whitespace splits into no fields. */
  lemma {:induction false} SplitAllSpace(s: string)
    requires AllSpace(s)
    ensures Split(s) == []
  {
  }

  /** A join of tokens is trimmed and non-empty when there is at least one field. */
  lemma {:induction false} JoinTrimmed(ws: seq<string>)
    requires forall k :: 0 <= k < |ws| ==> IsToken(ws[k])
    requires ws != []
    ensures Join(ws) != [] && Trimmed(Join(ws))
    decreases |ws|
  {
    if |ws| > 1 {
      JoinTrimmed(ws[1..]);
      var s := Join(ws);
      assert s == ws[0] + " " + Join(ws[1..]);
      assert s[|s| - 1] == Join(ws[1..])[|Join(ws[1..])| - 1];
    }
  }

  /** A line of single-space-separated fields ended by whitespace: `line.strip().split()` gives back the fields. */
  lemma SplitLine(ws: seq<string>, tail: string)
    requires forall k :: 0 <= k < |ws| ==> IsToken(ws[k])
    requires AllSpace(tail)
    ensures Split(Strip(Join(ws) + tail)) == ws
  {
    if ws == [] {
      assert Join(ws) + tail == tail;
      StripSpaces(tail);
    } else {
      SplitFields(ws, tail);
    }
  }

  /** The case of SplitLine with at least one field. */
  lemma SplitFields(ws: seq<string>, tail: string)
    requires forall k :: 0 <= k < |ws| ==> IsToken(ws[k])
    requires AllSpace(tail) && ws != []
    ensures Split(Strip(Join(ws) + tail)) == ws
  {
    var line := Join(ws);
    JoinTrimmed(ws);
    StripJoin(ws, tail);
    SplitJoin(ws, "");
    assert line + "" == line;
  }

  /** A non-empty join of tokens followed by whitespace strips back to the join. */
  lemma StripJoin(ws: seq<string>, tail: string)
    requires Join(ws) != [] && Trimmed(Join(ws))
    requires AllSpace(tail)
    ensures Strip(Join(ws) + tail) == Join(ws)
  {
    var line := Join(ws);
    StripAround("", line, tail);
    assert "" + line + tail == line + tail;
  }

  /** Stripping nothing but whitespace leaves no fields. */
  lemma StripSpaces(s: string)
    requires AllSpace(s)
    ensures Split(Strip(s)) == []
  {
    SplitAllSpace(Strip(s));
  }
}
