/**
 * The byte-level text helpers of the driver: the C-string cursor model,
 * left_trim / ltrim, advance_ws, extract_and_advance_token and split.
 *
 * A `const char*` is modelled as a cursor `pos` into a memory `mem`:
 * reading outside `mem` yields NUL, so a C string ends at the first NUL
 * of `mem` or at its end.
 */
module Text {
  /** The byte at address `i` of `mem`; NUL outside it. */
  function At(mem: string, i: int): char
  {
    if 0 <= i < |mem| then mem[i] else '\0'
  }

  /** The C string that starts at `pos`: every byte up to the first NUL. */
  function CString(mem: string, pos: int): (r: string)
    ensures '\0' !in r
    ensures forall k | 0 <= k < |r| :: r[k] == At(mem, pos + k)
    ensures At(mem, pos + |r|) == '\0'
    decreases |mem| - pos
  {
    if At(mem, pos) == '\0' then "" else [mem[pos]] + CString(mem, pos + 1)
  }

  /** The address just past the longest run of bytes from `ws` at `pos` (strspn). */
  function Span(mem: string, pos: int, ws: string): (r: int)
    ensures pos <= r
    ensures forall k | pos <= k < r :: At(mem, k) != '\0' && At(mem, k) in ws
    ensures At(mem, r) == '\0' || At(mem, r) !in ws
    decreases |mem| - pos
  {
    if At(mem, pos) == '\0' || At(mem, pos) !in ws then pos else Span(mem, pos + 1, ws)
  }

  /** The address just before the first byte of `stop` or NUL at `pos` (strcspn). */
  function CSpan(mem: string, pos: int, stop: string): (r: int)
    ensures pos <= r
    ensures forall k | pos <= k < r :: At(mem, k) != '\0' && At(mem, k) !in stop
    ensures At(mem, r) == '\0' || At(mem, r) in stop
    decreases |mem| - pos
  {
    if At(mem, pos) == '\0' || At(mem, pos) in stop then pos else CSpan(mem, pos + 1, stop)
  }

  /** left_trim: skip the spaces and tabs at the cursor. */
  function LeftTrim(mem: string, pos: int): (r: int)
    ensures pos <= r
    ensures forall k | pos <= k < r :: At(mem, k) == ' ' || At(mem, k) == '\t'
    ensures At(mem, r) != ' ' && At(mem, r) != '\t'
  {
    Span(mem, pos, " \t")
  }

  /** ltrim with an explicit whitespace set (its default is " \t"). */
  function Ltrim(mem: string, pos: int, ws: string): (r: int)
    ensures pos <= r
    ensures forall k | pos <= k < r :: At(mem, k) in ws
    ensures At(mem, r) == '\0' || At(mem, r) !in ws
  {
    Span(mem, pos, ws)
  }

  /** The result of advance_ws: the token it copies out and the source that remains. */
  datatype Advanced = Advanced(token: string, rest: string)

  /**
   * advance_ws: skip leading blanks, copy the word up to a blank or '#',
   * and leave the source just past the word's delimiter, or empty when
   * the word ended the string or a '#' comment starts.
   */
  function AdvanceWs(mem: string, pos: int): (r: Advanced)
  {
    var start := Ltrim(mem, pos, " \t");
    var end := CSpan(mem, start, "# \t");
    var token := CString(mem, start)[..end - start];
    if At(mem, end) == '\0' || At(mem, end) == '#' then Advanced(token, "")
    else Advanced(token, CString(mem, end + 1))
  }

  /** The copied word holds no blank, '#' or NUL. */
  lemma AdvanceWsToken(mem: string, pos: int)
    ensures forall c | c in AdvanceWs(mem, pos).token :: c !in "# \t\0"
  {
    var start := Ltrim(mem, pos, " \t");
    var end := CSpan(mem, start, "# \t");
    var cs := CString(mem, start);
    var token := AdvanceWs(mem, pos).token;
    assert token == cs[..end - start];
    forall c | c in token ensures c !in "# \t\0" {
      var k :| 0 <= k < |token| && token[k] == c;
      assert c == At(mem, start + k);
    }
  }

  /** What remains is empty or a proper suffix of the string that was advanced over. */
  lemma AdvanceWsRest(mem: string, pos: int)
    ensures var r := AdvanceWs(mem, pos); var s := CString(mem, pos);
      r.rest == [] || (|r.rest| < |s| && r.rest == s[|s| - |r.rest|..])
  {
    var start := Ltrim(mem, pos, " \t");
    var end := CSpan(mem, start, "# \t");
    if At(mem, end) != '\0' && At(mem, end) != '#' {
      assert forall k | pos <= k < start :: At(mem, k) in " \t";
      CStringFrom(mem, pos, end + 1);
    }
  }

  /**
   * advance_ws exactly: the blanks are skipped, the token is the whole word
   * up to the first blank, '#' or NUL, and the source then remains empty at
   * NUL or '#' and otherwise starts just past the blank that ended the word.
   */
  lemma AdvanceWsExact(mem: string, pos: int)
    ensures var start := Ltrim(mem, pos, " \t");
      var r := AdvanceWs(mem, pos);
      var e := start + |r.token|;
      && pos <= start
      && (forall k | pos <= k < start :: At(mem, k) in " \t")
      && At(mem, start) !in " \t"
      && (forall k | start <= k < e :: At(mem, k) !in "# \t\0")
      && (forall k | 0 <= k < |r.token| :: r.token[k] == At(mem, start + k))
      && At(mem, e) in "# \t\0"
      && ((At(mem, e) == '\0' || At(mem, e) == '#') ==> r.rest == "")
      && ((At(mem, e) == ' ' || At(mem, e) == '\t') ==> r.rest == CString(mem, e + 1))
  {
    var start := Ltrim(mem, pos, " \t");
    var end := CSpan(mem, start, "# \t");
    CStringFrom(mem, start, end);
    var token := CString(mem, start)[..end - start];
    assert AdvanceWs(mem, pos).token == token;
    assert |token| == end - start;
  }

  /** Skipping `d` non-NUL bytes of a C string drops exactly `d` bytes from it. */
  lemma {:induction false} CStringFrom(mem: string, pos: int, q: int)
    requires pos <= q
    requires forall k | pos <= k < q :: At(mem, k) != '\0'
    ensures CString(mem, pos) == CString(mem, pos)[..q - pos] + CString(mem, q)
    ensures |CString(mem, pos)| == q - pos + |CString(mem, q)|
    decreases q - pos
  {
    if pos < q {
      CStringFrom(mem, pos + 1, q);
      var rest := CString(mem, pos + 1);
      assert At(mem, pos) != '\0';
      assert CString(mem, pos) == [mem[pos]] + rest;
      assert CString(mem, pos)[..q - pos] == [mem[pos]] + rest[..q - pos - 1];
    } else {
      assert CString(mem, pos)[..q - pos] == [];
    }
  }

  /** The number of bytes before the first ' ', '#' or NUL at `pos`. */
  function TokenLength(mem: string, pos: int): (n: nat)
    ensures forall k | pos <= k < pos + n :: At(mem, k) !in " #\0"
    ensures At(mem, pos + n) in " #\0"
    decreases |mem| - pos
  {
    if At(mem, pos) in " #\0" then 0 else 1 + TokenLength(mem, pos + 1)
  }

  /** The result of extract_and_advance_token: the token and the new cursor. */
  datatype Extracted = Extracted(token: string, next: int)

  /**
   * extract_and_advance_token, as the stream it uses behaves: the token is
   * every byte up to the first ' ' or '#'; the cursor moves past that
   * delimiter; when the string ends first the stream position reads as -1,
   * so the cursor ends one byte BEFORE where it started.
   */
  function ExtractToken(mem: string, pos: int): (r: Extracted)
    ensures forall k | 0 <= k < |r.token| :: r.token[k] == At(mem, pos + k) && r.token[k] !in " #\0"
    ensures r.next == pos - 1 || r.next == pos + |r.token| + 1
  {
    var n := TokenLength(mem, pos);
    var token := seq(n, k requires 0 <= k < n => At(mem, pos + k));
    if At(mem, pos + n) == '\0' then Extracted(token, pos - 1)
    else Extracted(token, pos + n + 1)
  }

  /** extract_and_advance_token: the character loop over the input stream. */
  method ExtractAndAdvanceToken(mem: string, pos: int) returns (token: string, next: int)
    ensures Extracted(token, next) == ExtractToken(mem, pos)
  {
    token := "";
    var i := pos;
    while At(mem, i) != '\0' && At(mem, i) != ' ' && At(mem, i) != '#'
      invariant pos <= i <= pos + TokenLength(mem, pos)
      invariant |token| == i - pos
      invariant forall k | 0 <= k < |token| :: token[k] == At(mem, pos + k)
      decreases pos + TokenLength(mem, pos) - i
    {
      token := token + [At(mem, i)];
      i := i + 1;
    }
    assert i == pos + TokenLength(mem, pos);
    if At(mem, i) == '\0' {
      next := pos - 1;
    } else {
      next := i + 1;
    }
  }

  /** The token never holds a delimiter, and it is exactly the C string's first word. */
  lemma ExtractTokenWord(mem: string, pos: int)
    ensures var r := ExtractToken(mem, pos);
      ' ' !in r.token && '#' !in r.token && '\0' !in r.token
    ensures var r := ExtractToken(mem, pos);
      |r.token| <= |CString(mem, pos)| && r.token == CString(mem, pos)[..|r.token|]
  {
    var n := TokenLength(mem, pos);
    var r := ExtractToken(mem, pos);
    forall c | c in r.token ensures c !in " #\0" {
      var k :| 0 <= k < |r.token| && r.token[k] == c;
      assert At(mem, pos + k) == c;
    }
    if pos <= pos + n {
      CStringFrom(mem, pos, pos + n);
    }
  }

  /** A delimiter right at the cursor yields an empty token and steps over it. */
  lemma ExtractTokenAtDelimiter(mem: string, pos: int)
    requires At(mem, pos) == ' ' || At(mem, pos) == '#'
    ensures ExtractToken(mem, pos) == Extracted("", pos + 1)
  {
  }

  /** Running off the end of the string moves the cursor one byte back. */
  lemma ExtractTokenAtEnd(mem: string, pos: int)
    requires At(mem, pos + TokenLength(mem, pos)) == '\0'
    ensures ExtractToken(mem, pos).next == pos - 1
  {
  }

  // ---------------------------------------------------------------- split

  /** The first index at or after `from` whose byte is in `delims`, or |s|. */
  function FirstOf(s: string, delims: string, from: nat): (k: nat)
    requires from <= |s|
    ensures from <= k <= |s|
    ensures forall j | from <= j < k :: s[j] !in delims
    ensures k < |s| ==> s[k] in delims
    decreases |s| - from
  {
    if from == |s| || s[from] in delims then from else FirstOf(s, delims, from + 1)
  }

  /** The first index at or after `from` whose byte is NOT in `delims`, or |s|. */
  function FirstNotOf(s: string, delims: string, from: nat): (k: nat)
    requires from <= |s|
    ensures from <= k <= |s|
    ensures forall j | from <= j < k :: s[j] in delims
    ensures k < |s| ==> s[k] !in delims
    decreases |s| - from
  {
    if from == |s| || s[from] !in delims then from else FirstNotOf(s, delims, from + 1)
  }

  /** split with empties_ok: every delimiter ends one piece. */
  function SplitKeepEmpties(s: string, delims: string): (r: seq<string>)
    ensures |r| >= 1
    decreases |s|
  {
    var k := FirstOf(s, delims, 0);
    if k == |s| then [s] else [s[..k]] + SplitKeepEmpties(s[k + 1..], delims)
  }

  /** split with no_empties: runs of delimiters separate non-empty pieces. */
  function SplitNoEmpties(s: string, delims: string): (r: seq<string>)
    ensures forall i | 0 <= i < |r| :: r[i] != ""
    decreases |s|
  {
    var j := FirstNotOf(s, delims, 0);
    if j == |s| then []
    else
      var k := FirstOf(s, delims, j);
      if k == |s| then [s[j..]] else [s[j..k]] + SplitNoEmpties(s[k + 1..], delims)
  }

  datatype SplitMode = EmptiesOk | NoEmpties

  /** split: all the behaviour of the template, selected by its mode. */
  function Split(s: string, delims: string, mode: SplitMode): seq<string>
  {
    if mode == EmptiesOk then SplitKeepEmpties(s, delims) else SplitNoEmpties(s, delims)
  }

  /** How many bytes of `s` are delimiters. */
  function CountDelims(s: string, delims: string): nat
  {
    if s == [] then 0 else (if s[0] in delims then 1 else 0) + CountDelims(s[1..], delims)
  }

  /** The bytes of `s` that are not delimiters, in order. */
  function Strip(s: string, delims: string): string
  {
    if s == [] then [] else (if s[0] in delims then [] else [s[0]]) + Strip(s[1..], delims)
  }

  /** The pieces joined back together with `sep` between them. */
  function Join(pieces: seq<string>, sep: char): string
  {
    if pieces == [] then []
    else if |pieces| == 1 then pieces[0]
    else pieces[0] + [sep] + Join(pieces[1..], sep)
  }

  function Concat(pieces: seq<string>): string
  {
    if pieces == [] then [] else pieces[0] + Concat(pieces[1..])
  }

  lemma {:induction false} CountDelimsAppend(a: string, b: string, delims: string)
    ensures CountDelims(a + b, delims) == CountDelims(a, delims) + CountDelims(b, delims)
  {
    if a == [] {
      assert a + b == b;
    } else {
      assert (a + b)[1..] == a[1..] + b;
      CountDelimsAppend(a[1..], b, delims);
    }
  }

  lemma {:induction false} StripAppend(a: string, b: string, delims: string)
    ensures Strip(a + b, delims) == Strip(a, delims) + Strip(b, delims)
  {
    if a == [] {
      assert a + b == b;
    } else {
      assert (a + b)[1..] == a[1..] + b;
      StripAppend(a[1..], b, delims);
    }
  }

  lemma {:induction false} NoDelimsCount(s: string, delims: string)
    requires forall j | 0 <= j < |s| :: s[j] !in delims
    ensures CountDelims(s, delims) == 0 && Strip(s, delims) == s
  {
    if s != [] {
      NoDelimsCount(s[1..], delims);
    }
  }

  lemma {:induction false} AllDelimsStrip(s: string, delims: string)
    requires forall j | 0 <= j < |s| :: s[j] in delims
    ensures Strip(s, delims) == []
  {
    if s != [] {
      AllDelimsStrip(s[1..], delims);
    }
  }

  /** empties_ok yields one more piece than there are delimiters, none holding one. */
  lemma {:induction false} SplitKeepEmptiesPieces(s: string, delims: string)
    ensures |SplitKeepEmpties(s, delims)| == CountDelims(s, delims) + 1
    ensures forall i, j | 0 <= i < |SplitKeepEmpties(s, delims)| && 0 <= j < |SplitKeepEmpties(s, delims)[i]| ::
      SplitKeepEmpties(s, delims)[i][j] !in delims
    decreases |s|
  {
    var k := FirstOf(s, delims, 0);
    if k == |s| {
      NoDelimsCount(s, delims);
    } else {
      SplitKeepEmptiesPieces(s[k + 1..], delims);
      assert s == s[..k] + [s[k]] + s[k + 1..];
      CountDelimsAppend(s[..k] + [s[k]], s[k + 1..], delims);
      CountDelimsAppend(s[..k], [s[k]], delims);
      NoDelimsCount(s[..k], delims);
      assert CountDelims([s[k]], delims) == 1 by {
        assert [s[k]][1..] == [];
      }
    }
  }

  /** Splitting on one separator and joining with it gives the string back. */
  lemma {:induction false} SplitJoin(s: string, sep: char)
    ensures Join(SplitKeepEmpties(s, [sep]), sep) == s
    decreases |s|
  {
    var k := FirstOf(s, [sep], 0);
    if k < |s| {
      SplitJoin(s[k + 1..], sep);
      var rest := SplitKeepEmpties(s[k + 1..], [sep]);
      assert rest != [] by {
        SplitKeepEmptiesPieces(s[k + 1..], [sep]);
      }
      assert s == s[..k] + [sep] + s[k + 1..];
    }
  }

  /** no_empties yields only non-empty pieces, none holding a delimiter. */
  lemma {:induction false} SplitNoEmptiesPieces(s: string, delims: string)
    ensures forall i | 0 <= i < |SplitNoEmpties(s, delims)| :: SplitNoEmpties(s, delims)[i] != []
    ensures forall i, j | 0 <= i < |SplitNoEmpties(s, delims)| && 0 <= j < |SplitNoEmpties(s, delims)[i]| ::
      SplitNoEmpties(s, delims)[i][j] !in delims
    decreases |s|
  {
    var j := FirstNotOf(s, delims, 0);
    if j < |s| {
      var k := FirstOf(s, delims, j);
      if k < |s| {
        SplitNoEmptiesPieces(s[k + 1..], delims);
        assert SplitNoEmpties(s, delims) == [s[j..k]] + SplitNoEmpties(s[k + 1..], delims);
      }
    }
  }

  /** no_empties drops exactly the delimiters: its pieces concatenate to the other bytes. */
  lemma {:induction false} SplitNoEmptiesContents(s: string, delims: string)
    ensures Concat(SplitNoEmpties(s, delims)) == Strip(s, delims)
    decreases |s|
  {
    var j := FirstNotOf(s, delims, 0);
    StripSkip(s, j, delims);
    if j < |s| {
      var k := FirstOf(s, delims, j);
      if k == |s| {
        NoDelimsCount(s[j..], delims);
        ConcatCons(s[j..], []);
      } else {
        SplitNoEmptiesContents(s[k + 1..], delims);
        SplitPiece(s, delims, j, k);
        var rest := SplitNoEmpties(s[k + 1..], delims);
        ConcatCons(s[j..k], rest);
      }
    }
  }

  lemma ConcatCons(x: string, rest: seq<string>)
    ensures Concat([x] + rest) == x + Concat(rest)
  {
    assert ([x] + rest)[1..] == rest;
  }

  lemma SplitPiece(s: string, delims: string, j: nat, k: nat)
    requires j <= k < |s| && s[k] in delims
    requires forall i | j <= i < k :: s[i] !in delims
    ensures Strip(s[j..], delims) == s[j..k] + Strip(s[k + 1..], delims)
  {
    assert s[j..] == s[j..k] + [s[k]] + s[k + 1..];
    StripGap(s[j..], s[j..k], s[k], s[k + 1..], delims);
  }

  lemma StripSkip(s: string, j: nat, delims: string)
    requires j <= |s|
    requires forall i | 0 <= i < j :: s[i] in delims
    ensures Strip(s, delims) == Strip(s[j..], delims)
  {
    assert s == s[..j] + s[j..];
    StripAppend(s[..j], s[j..], delims);
    AllDelimsStrip(s[..j], delims);
  }

  lemma StripGap(t: string, a: string, d: char, b: string, delims: string)
    requires t == a + [d] + b && d in delims
    requires forall i | 0 <= i < |a| :: a[i] !in delims
    ensures Strip(t, delims) == a + Strip(b, delims)
  {
    StripAppend(a + [d], b, delims);
    StripAppend(a, [d], delims);
    NoDelimsCount(a, delims);
    assert [d][1..] == [];
  }
}
