/**
 * The character stream the parser reads from (a `FILE*` in the C code).
 * The stream is a sequence of characters with a cursor; `fgetc` yields the
 * character under the cursor and advances, or yields EOF at the end without
 * advancing.
 */
module Stream {
  import opened Wrappers

  /** The shared buffer length of the C code (`XML_BUFFER_LENGTH`). */
  const BufferLength: nat := 200

  /** What `fgetc` returns at offset `p`: a character, or None for EOF. */
  function CharAt(text: seq<char>, p: nat): Option<char>
  {
    if p < |text| then Some(text[p]) else None
  }

  /** The offset after one `fgetc` at offset `p`; EOF does not move the cursor. */
  function After(text: seq<char>, p: nat): (q: nat)
    requires p <= |text|
    ensures q <= |text|
    ensures q == p <==> p == |text|
  {
    if p < |text| then p + 1 else p
  }

  /** The string a NUL-terminated char buffer denotes once `strcpy` copies it. */
  function CString(buf: seq<char>): (s: string)
    ensures '\0' !in s
  {
    if |buf| == 0 || buf[0] == '\0' then [] else [buf[0]] + CString(buf[1..])
  }

  /** The string is the buffer up to, not including, its first NUL. */
  lemma {:induction false} CStringPrefix(buf: seq<char>)
    ensures |CString(buf)| <= |buf| && CString(buf) == buf[..|CString(buf)|]
    ensures |CString(buf)| < |buf| ==> buf[|CString(buf)|] == '\0'
  {
    if buf != [] && buf[0] != '\0' {
      CStringPrefix(buf[1..]);
    }
  }

  lemma {:induction false} CStringOfPlain(s: string)
    requires '\0' !in s
    ensures CString(s) == s
  {
    if s != [] {
      CStringOfPlain(s[1..]);
    }
  }

  /** The first offset at or after `p` holding `x`, or `|text|` if there is none. */
  function IndexOf(text: seq<char>, p: nat, x: char): (k: nat)
    requires p <= |text|
    ensures p <= k <= |text|
    ensures k < |text| ==> text[k] == x
    decreases |text| - p
  {
    if p == |text| || text[p] == x then p else IndexOf(text, p + 1, x)
  }

  /** An offset with the three properties of `IndexOf` is the one it returns. */
  lemma {:induction false} IndexOfIs(text: seq<char>, p: nat, x: char, k: nat)
    requires p <= k <= |text|
    requires k < |text| ==> text[k] == x
    requires forall j :: p <= j < k ==> text[j] != x
    ensures IndexOf(text, p, x) == k
    decreases k - p
  {
    if p < k {
      IndexOfIs(text, p + 1, x, k);
    }
  }

  /** `piece` occurs in `text` starting at offset `a`, character by character. */
  ghost predicate At(text: seq<char>, a: nat, piece: seq<char>)
    decreases |piece|
  {
    if |piece| == 0 then a <= |text|
    else a < |text| && text[a] == piece[0] && At(text, a + 1, piece[1..])
  }

  /** `At` is slice equality. */
  lemma {:induction false} AtSlice(text: seq<char>, a: nat, piece: seq<char>)
    ensures At(text, a, piece) <==> a + |piece| <= |text| && text[a..a + |piece|] == piece
    decreases |piece|
  {
    if piece != [] {
      AtSlice(text, a + 1, piece[1..]);
      if a + |piece| <= |text| {
        assert text[a..a + |piece|] == [text[a]] + text[a + 1..a + 1 + |piece[1..]|];
        assert piece == [piece[0]] + piece[1..];
      }
    }
  }

  /** The middle of `pre + piece + rest` is `piece`. */
  lemma AtConcat(text: seq<char>, pre: seq<char>, piece: seq<char>, rest: seq<char>)
    requires text == pre + piece + rest
    ensures At(text, |pre|, piece)
  {
    AtSlice(text, |pre|, piece);
    assert text[|pre|..|pre| + |piece|] == piece;
  }

  /** An occurrence of `x + y` is an occurrence of `x` followed by one of `y`. */
  lemma AtSplit(text: seq<char>, a: nat, x: seq<char>, y: seq<char>)
    requires At(text, a, x + y)
    ensures At(text, a, x) && At(text, a + |x|, y)
  {
    AtSlice(text, a, x + y);
    AtSlice(text, a, x);
    AtSlice(text, a + |x|, y);
    assert text[a..a + |x|] == (x + y)[..|x|];
    assert text[a + |x|..a + |x| + |y|] == (x + y)[|x|..];
  }

  /** An occurrence of a single character. */
  lemma AtChar(text: seq<char>, a: nat, c: char)
    requires At(text, a, [c])
    ensures a < |text| && text[a] == c
  {
  }

  class Reader {
    const text: seq<char>
    var pos: nat

    ghost predicate Valid()
      reads this
    {
      pos <= |text|
    }

    constructor (text: seq<char>)
      ensures Valid() && this.text == text && pos == 0
    {
      this.text := text;
      pos := 0;
    }

    /** `fgetc`. */
    method GetC() returns (c: Option<char>)
      requires Valid()
      modifies this`pos
      ensures Valid()
      ensures c == CharAt(text, old(pos)) && pos == After(text, old(pos))
    {
      if pos < |text| {
        c := Some(text[pos]);
        pos := pos + 1;
      } else {
        c := None;
      }
    }
  }
}
