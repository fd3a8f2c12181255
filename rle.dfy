/**
 * The `.rle` (run-length encoded) decoder as the game's file constructor
 * runs it. Lines that start with '#' are skipped; the first other line is
 * the header, whose commas are read as spaces before it is split at single
 * spaces: token 6 is the row count and token 2 the column count. Every later
 * line is body: '$' moves the cursor to the start of the next row, 'o' turns
 * the cursor's cell on and moves right, 'b' moves right, '!' ends the line
 * (only the line: later lines are still read) and every other character,
 * run counts included, is ignored. The cursor carries over from line to line.
 */
module Rle {
  import opened Life
  import opened Grid
  import opened Pattern

  // ---------------------------------------------------------------------
  // The library calls the header goes through
  // ---------------------------------------------------------------------

  /** What `replace(',', ' ')` puts in place of `ch`. */
  function Blanked(ch: char): char
  {
    if ch == ',' then ' ' else ch
  }

  /** `s.replace(',', ' ')`: every comma becomes a space. */
  function Replace(s: string): (t: string)
    ensures |t| == |s|
  {
    if |s| == 0 then "" else [Blanked(s[0])] + Replace(s[1..])
  }

  /** Replace works character by character. */
  lemma {:induction false} ReplaceAt(s: string, i: nat)
    requires i < |s|
    ensures Replace(s)[i] == Blanked(s[i])
  {
    if i > 0 {
      ReplaceAt(s[1..], i - 1);
    }
  }

  lemma {:induction false} ReplaceAppend(a: string, b: string)
    ensures Replace(a + b) == Replace(a) + Replace(b)
  {
    if |a| > 0 {
      ReplaceAppend(a[1..], b);
      assert (a + b)[0] == a[0] && (a + b)[1..] == a[1..] + b;
      var f := [Blanked(a[0])];
      assert Replace(a + b) == f + Replace(a[1..] + b);
      assert f + (Replace(a[1..]) + Replace(b)) == (f + Replace(a[1..])) + Replace(b);
    } else {
      assert a + b == b;
    }
  }

  /** A string without commas is left as it is. */
  lemma {:induction false} ReplaceKeeps(s: string)
    requires ',' !in s
    ensures Replace(s) == s
  {
    if |s| > 0 {
      assert s[0] in s;
      assert forall ch :: ch in s[1..] ==> ch in s;
      ReplaceKeeps(s[1..]);
      assert [s[0]] + s[1..] == s;
    }
  }

  /** The pieces between single spaces, empty ones included: "a  b " gives "a", "", "b", "". */
  function Pieces(s: string): (ps: seq<string>)
    ensures |ps| >= 1
  {
    if |s| == 0 then [""]
    else if s[0] == ' ' then [""] + Pieces(s[1..])
    else var t := Pieces(s[1..]); [[s[0]] + t[0]] + t[1..]
  }

  /** No piece holds a space. */
  lemma {:induction false} PiecesHaveNoSpace(s: string)
    ensures forall i :: 0 <= i < |Pieces(s)| ==> ' ' !in Pieces(s)[i]
  {
    if |s| > 0 {
      PiecesHaveNoSpace(s[1..]);
      var t := Pieces(s[1..]);
      if s[0] != ' ' {
        assert forall ch :: ch in [s[0]] + t[0] ==> ch == s[0] || ch in t[0];
      }
    }
  }

  /** The pieces put back together with a single space between neighbours. */
  function Join(ps: seq<string>): string
  {
    if |ps| == 0 then "" else if |ps| == 1 then ps[0] else ps[0] + " " + Join(ps[1..])
  }

  lemma JoinCons(a: string, ps: seq<string>)
    requires |ps| >= 1
    ensures Join([a] + ps) == a + " " + Join(ps)
  {
    assert ([a] + ps)[1..] == ps;
  }

  /** Splitting into pieces and joining them again gives the string back. */
  lemma {:induction false} JoinPieces(s: string)
    ensures Join(Pieces(s)) == s
  {
    if |s| > 0 {
      JoinPieces(s[1..]);
      var t := Pieces(s[1..]);
      if s[0] == ' ' {
        JoinCons("", t);
        assert Pieces(s) == [""] + t;
        assert "" + " " + s[1..] == s;
      } else {
        var ps := Pieces(s);
        assert ps[1..] == t[1..];
        if |t| == 1 {
          assert Join(ps) == [s[0]] + t[0];
        } else {
          assert Join(t) == t[0] + " " + Join(t[1..]);
          assert Join(ps) == ([s[0]] + t[0]) + " " + Join(t[1..]);
        }
      }
    }
  }

  /** A letter that is not a space joins the first piece of what follows it. */
  lemma PiecesCons(ch: char, u: string)
    requires ch != ' '
    ensures Pieces([ch] + u) == [[ch] + Pieces(u)[0]] + Pieces(u)[1..]
  {
    assert ([ch] + u)[0] == ch && ([ch] + u)[1..] == u;
  }

  /** A space-free word in front of text joins the text's first piece. */
  lemma {:induction false} PiecesOfWord(w: string, rest: string)
    requires ' ' !in w
    ensures Pieces(w + rest) == [w + Pieces(rest)[0]] + Pieces(rest)[1..]
  {
    var p := Pieces(rest);
    if |w| > 0 {
      var v := w[1..];
      assert w == [w[0]] + v;
      assert w + rest == [w[0]] + (v + rest);
      PiecesOfWord(v, rest);
      PiecesCons(w[0], v + rest);
      assert [w[0]] + (v + p[0]) == w + p[0];
    } else {
      assert w + rest == rest;
      assert w + p[0] == p[0];
      assert [p[0]] + p[1..] == p;
    }
  }

  /** Joining space-free pieces and splitting again gives the pieces back. */
  lemma {:induction false} PiecesJoin(ps: seq<string>)
    requires |ps| >= 1
    requires forall i :: 0 <= i < |ps| ==> ' ' !in ps[i]
    ensures Pieces(Join(ps)) == ps
  {
    if |ps| == 1 {
      PiecesOfWord(ps[0], "");
      assert ps[0] + "" == ps[0];
    } else {
      var j := Join(ps[1..]);
      PiecesJoin(ps[1..]);
      PiecesOfWord(ps[0], " " + j);
      assert ps[0] + " " + j == ps[0] + (" " + j);
      assert (" " + j)[0] == ' ' && (" " + j)[1..] == j;
      assert Pieces(" " + j) == [""] + ps[1..];
      assert ps[0] + "" == ps[0];
      assert [ps[0]] + ps[1..] == ps;
    }
  }

  /** The pieces without the empty ones at the end. */
  function StripTrailing(ps: seq<string>): (qs: seq<string>)
    ensures qs <= ps
    ensures |qs| == 0 || qs[|qs| - 1] != ""
    ensures forall i :: |qs| <= i < |ps| ==> ps[i] == ""
  {
    if |ps| > 0 && ps[|ps| - 1] == "" then StripTrailing(ps[..|ps| - 1]) else ps
  }

  /**
   * `s.split("[ ]")`: the string itself when it has no space; otherwise its
   * pieces with the trailing empty ones dropped.
   */
  function Split(s: string): seq<string>
  {
    if ' ' !in s then [s] else StripTrailing(Pieces(s))
  }

  /**
   * Split gives the pieces up to the last non-empty one; without a space,
   * that is the string itself.
   */
  lemma SplitIsPieces(s: string)
    ensures Split(s) <= Pieces(s)
    ensures forall i :: |Split(s)| <= i < |Pieces(s)| ==> Pieces(s)[i] == ""
    ensures ' ' in s ==> |Split(s)| == 0 || Split(s)[|Split(s)| - 1] != ""
    ensures ' ' !in s ==> Split(s) == [s]
    ensures forall i :: 0 <= i < |Split(s)| ==> ' ' !in Split(s)[i]
  {
    if ' ' !in s {
      PiecesJoin([s]);
    } else {
      PiecesHaveNoSpace(s);
    }
  }

  /** Space-free pieces, at least two and the last one non-empty, are split back out of their join. */
  lemma SplitJoin(ps: seq<string>)
    requires |ps| >= 2 && ps[|ps| - 1] != ""
    requires forall i :: 0 <= i < |ps| ==> ' ' !in ps[i]
    ensures Split(Join(ps)) == ps
  {
    PiecesJoin(ps);
    JoinCons(ps[0], ps[1..]);
    assert [ps[0]] + ps[1..] == ps;
    assert Join(ps)[|ps[0]|] == ' ';
  }

  predicate IsDigit(ch: char)
  {
    '0' <= ch <= '9'
  }

  predicate AllDigits(s: string)
  {
    forall i :: 0 <= i < |s| ==> IsDigit(s[i])
  }

  function DigitValue(ch: char): int
  {
    ch as int - '0' as int
  }

  /** The number a string of decimal digits denotes. */
  function Value(s: string): int
  {
    if |s| == 0 then 0 else Value(s[..|s| - 1]) * 10 + DigitValue(s[|s| - 1])
  }

  function Digit(d: nat): char
    requires d < 10
  {
    ('0' as int + d) as char
  }

  /** The decimal digits of `n`, most significant first. */
  function Show(n: nat): (s: string)
    ensures |s| >= 1
  {
    (if n < 10 then "" else Show(n / 10)) + [Digit(n % 10)]
  }

  /** Show writes only digits and no leading zero. */
  lemma {:induction false} ShowDigits(n: nat)
    ensures AllDigits(Show(n)) && (|Show(n)| == 1 || Show(n)[0] != '0')
  {
    if n >= 10 {
      ShowDigits(n / 10);
      assert Show(n)[0] == Show(n / 10)[0];
    }
  }

  lemma {:induction false} ValueShow(n: nat)
    ensures Value(Show(n)) == n
  {
    var s := Show(n);
    var q, d := n / 10, n % 10;
    var front := if n < 10 then "" else Show(q);
    assert s == front + [Digit(d)];
    assert s[..|s| - 1] == front;
    assert DigitValue(s[|s| - 1]) == d;
    assert n == q * 10 + d;
    if n >= 10 {
      ValueShow(q);
    }
  }

  const IntMin: int := -0x8000_0000
  const IntMax: int := 0x7fff_ffff

  /**
   * `Integer.parseInt(s)` on ASCII digits: an optional '-' or '+', at least
   * one digit, nothing else, and a value in the 32-bit range; anything else
   * is a NumberFormatException, here `None`.
   */
  function ParseInt(s: string): (r: Option<int>)
    ensures r.Some? ==> IntMin <= r.value <= IntMax
  {
    if |s| == 0 then None
    else
      var digits := if s[0] == '-' || s[0] == '+' then s[1..] else s;
      if |digits| == 0 || !AllDigits(digits) then None
      else
        var v := if s[0] == '-' then -Value(digits) else Value(digits);
        if IntMin <= v <= IntMax then Some(v) else None
  }

  /** Only digits after an optional sign are accepted; unsigned digits give their value. */
  lemma ParseIntAccepts(s: string)
    ensures ParseInt(s).Some? ==> |s| >= 1 && (IsDigit(s[0]) || s[0] == '-' || s[0] == '+')
    ensures ParseInt(s).Some? ==> |s| >= 2 || IsDigit(s[0])
    ensures ParseInt(s).Some? ==> AllDigits(s[1..])
    ensures ParseInt(s).Some? && IsDigit(s[0]) ==> ParseInt(s).value == Value(s)
  {
    if ParseInt(s).Some? && !(s[0] == '-' || s[0] == '+') {
      assert IsDigit(s[0]);
      assert forall i :: 0 <= i < |s[1..]| ==> s[1..][i] == s[i + 1];
    }
  }

  lemma {:induction false} ValueOfDigits(d: string)
    requires AllDigits(d)
    ensures Value(d) >= 0
  {
    if |d| > 0 {
      assert AllDigits(d[..|d| - 1]) by {
        assert forall k :: 0 <= k < |d| - 1 ==> d[..|d| - 1][k] == d[k];
      }
      ValueOfDigits(d[..|d| - 1]);
    }
  }

  /**
   * Every digit string in range is read as its value: bare or after '+',
   * leading zeros included, and negated after '-'.
   */
  lemma ParseDigits(d: string)
    requires |d| > 0 && AllDigits(d)
    ensures Value(d) <= IntMax ==> ParseInt(d) == Some(Value(d))
    ensures Value(d) <= IntMax ==> ParseInt("+" + d) == Some(Value(d))
    ensures Value(d) <= -IntMin ==> ParseInt("-" + d) == Some(-Value(d))
  {
    ValueOfDigits(d);
    assert IsDigit(d[0]);
    assert ("+" + d)[0] == '+' && ("+" + d)[1..] == d;
    assert ("-" + d)[0] == '-' && ("-" + d)[1..] == d;
  }

  /** Every 32-bit non-negative number is read back from its decimal digits. */
  lemma ParseShow(n: nat)
    requires n <= IntMax
    ensures ParseInt(Show(n)) == Some(n)
  {
    ShowDigits(n);
    ValueShow(n);
    assert IsDigit(Show(n)[0]);
  }

  /** Every 32-bit negative number is read back from '-' and its decimal digits. */
  lemma ParseNegativeShow(n: int)
    requires 0 < n <= -IntMin
    ensures ParseInt("-" + Show(n)) == Some(-n)
  {
    var d := Show(n);
    ShowDigits(n);
    ValueShow(n);
    var s := "-" + d;
    assert s[0] == '-' && s[1..] == d;
    assert |d| > 0 && AllDigits(d) && Value(d) == n;
    assert IntMin <= -Value(d) <= IntMax;
  }

  // ---------------------------------------------------------------------
  // Header
  // ---------------------------------------------------------------------

  /**
   * The header's grid size (rows, cols): rows from token 6, cols from token
   * 2. Fewer than seven tokens, a token that is not a number, or a negative
   * size stops the program: `None`.
   */
  function Header(line: string): Option<(nat, nat)>
  {
    var toks := Split(Replace(line));
    if |toks| < 7 then None
    else
      var rows := ParseInt(toks[6]);
      var cols := ParseInt(toks[2]);
      if rows.None? || cols.None? || rows.value < 0 || cols.value < 0 then None
      else Some((rows.value, cols.value))
  }

  /** The header text for a grid of `cols` columns and `rows` rows: "x = cols, y = rows". */
  function HeaderText(cols: nat, rows: nat): string
  {
    "x = " + Show(cols) + ", y = " + Show(rows)
  }

  lemma ReplaceLiterals()
    ensures Replace("x = ") == "x = " && Replace(", y = ") == "  y = "
  {
    ReplaceKeeps("x = ");
    ReplaceKeeps(" y = ");
    ReplaceAppend(",", " y = ");
    assert "," + " y = " == ", y = ";
    assert Replace(",") == " ";
    assert " " + " y = " == "  y = ";
  }

  lemma HeaderTextReplaced(c: string, r: string)
    requires Replace(c) == c && Replace(r) == r
    ensures Replace("x = " + c + ", y = " + r) == "x = " + c + "  y = " + r
  {
    ReplaceAppend("x = " + c, ", y = " + r);
    ReplaceAppend("x = ", c);
    ReplaceAppend(", y = ", r);
    ReplaceLiterals();
    assert ("x = " + c) + (", y = " + r) == "x = " + c + ", y = " + r;
    assert ("x = " + c) + ("  y = " + r) == "x = " + c + "  y = " + r;
  }

  lemma HeaderTokensJoined(c: string, r: string)
    ensures Join(["x", "=", c, "", "y", "=", r]) == "x = " + c + "  y = " + r
  {
    var ps := ["x", "=", c, "", "y", "=", r];
    assert ps[6..] == [r];
    assert Join(ps[5..]) == "=" + " " + r;
    assert Join(ps[4..]) == "y" + " " + Join(ps[5..]);
    assert Join(ps[3..]) == "" + " " + Join(ps[4..]);
    assert Join(ps[2..]) == c + " " + Join(ps[3..]);
    assert Join(ps[1..]) == "=" + " " + Join(ps[2..]);
    assert Join(ps) == "x" + " " + Join(ps[1..]);
  }

  /** The standard header of a size reads back as that size. */
  lemma HeaderRoundTrip(cols: nat, rows: nat)
    requires cols <= IntMax && rows <= IntMax
    ensures Header(HeaderText(cols, rows)) == Some((rows, cols))
  {
    var c, r := Show(cols), Show(rows);
    var ps := ["x", "=", c, "", "y", "=", r];
    ShowDigits(cols);
    ShowDigits(rows);
    assert ',' !in c && ' ' !in c;
    assert ',' !in r && ' ' !in r;
    ReplaceKeeps(c);
    ReplaceKeeps(r);
    HeaderTextReplaced(c, r);
    HeaderTokensJoined(c, r);
    SplitJoin(ps);
    ParseShow(cols);
    ParseShow(rows);
  }

  /** A space between two texts separates their pieces. */
  lemma {:induction false} PiecesSpace(a: string, b: string)
    ensures Pieces(a + " " + b) == Pieces(a) + Pieces(b)
    decreases |a|
  {
    if |a| == 0 {
      assert a + " " + b == " " + b;
      assert (" " + b)[0] == ' ' && (" " + b)[1..] == b;
    } else {
      var v := a[1..];
      assert a == [a[0]] + v;
      assert a + " " + b == [a[0]] + (v + " " + b);
      PiecesSpace(v, b);
      if a[0] == ' ' {
        assert ([a[0]] + (v + " " + b))[1..] == v + " " + b;
        assert a[1..] == v;
      } else {
        PiecesCons(a[0], v + " " + b);
        PiecesCons(a[0], v);
        var p := Pieces(v);
        assert (p + Pieces(b))[1..] == p[1..] + Pieces(b);
      }
    }
  }

  /** Dropping trailing empty pieces never reaches into a prefix that ends in a non-empty one. */
  lemma {:induction false} StripKeeps(ps: seq<string>, t: seq<string>)
    requires |ps| > 0 && ps[|ps| - 1] != ""
    ensures ps <= StripTrailing(ps + t)
    decreases |t|
  {
    if |t| == 0 {
      assert ps + t == ps;
    } else if t[|t| - 1] == "" {
      assert (ps + t)[..|ps + t| - 1] == ps + t[..|t| - 1];
      StripKeeps(ps, t[..|t| - 1]);
    }
  }

  /** Commas read as spaces in a header with further fields. */
  lemma FieldsReplaced(c: string, r: string, rest: string)
    requires Replace(c) == c && Replace(r) == r
    ensures Replace("x = " + c + ", y = " + r + ", " + rest)
      == ("x = " + c + "  y = " + r) + " " + (" " + Replace(rest))
  {
    var head := "x = " + c + ", y = " + r;
    HeaderTextReplaced(c, r);
    ReplaceAppend(head + ", ", rest);
    ReplaceAppend(head, ", ");
    assert Replace(", ") == "  ";
  }

  /** Space-free pieces ending in a non-empty one lead the split of their join followed by a space and more. */
  lemma TokensLead(ps: seq<string>, tail: string)
    requires |ps| >= 1 && ps[|ps| - 1] != ""
    requires forall i :: 0 <= i < |ps| ==> ' ' !in ps[i]
    ensures ps <= Split(Join(ps) + " " + tail)
  {
    var h := Join(ps);
    PiecesJoin(ps);
    PiecesSpace(h, tail);
    assert (h + " " + tail)[|h|] == ' ';
    StripKeeps(ps, Pieces(tail));
  }

  /**
   * The standard header followed by further fields, as in
   * "x = 3, y = 3, rule = B3/S23", reads as its size whatever those fields
   * say: only tokens 2 and 6 are looked at.
   */
  lemma HeaderWithFields(cols: nat, rows: nat, rest: string)
    requires cols <= IntMax && rows <= IntMax
    ensures Header(HeaderText(cols, rows) + ", " + rest) == Some((rows, cols))
  {
    var c, r := Show(cols), Show(rows);
    var ps := ["x", "=", c, "", "y", "=", r];
    ShowDigits(cols);
    ShowDigits(rows);
    assert ',' !in c && ' ' !in c;
    assert ',' !in r && ' ' !in r;
    ReplaceKeeps(c);
    ReplaceKeeps(r);
    FieldsReplaced(c, r, rest);
    HeaderTokensJoined(c, r);
    TokensLead(ps, " " + Replace(rest));
    ParseShow(cols);
    ParseShow(rows);
  }

  /** The header of the glider pattern file reads as a 3 x 3 grid. */
  lemma GliderHeader()
    ensures Header("x = 3, y = 3, rule = B3/S23") == Some((3, 3))
  {
    GliderHeaderText();
    HeaderWithFields(3, 3, "rule = B3/S23");
  }

  lemma GliderHeaderText()
    ensures HeaderText(3, 3) + ", " + "rule = B3/S23" == "x = 3, y = 3, rule = B3/S23"
  {
    assert Digit(3) == '3';
    assert Show(3) == [Digit(3)];
    var t := "x = " + "3" + ", y = " + "3";
    assert t + ", " + "rule = B3/S23" == "x = 3, y = 3, rule = B3/S23";
  }

  /**
   * The header is read by token position: without spaces around '=' there
   * are too few tokens and "x=3,y=3" gives no size.
   */
  lemma CompactHeaderRejected()
    ensures Header("x=3,y=3") == None
  {
    var a, b := "x=3", "y=3";
    ReplaceAppend(a + ",", b);
    ReplaceAppend(a, ",");
    ReplaceKeeps(a);
    ReplaceKeeps(b);
    assert Replace(",") == " ";
    assert a + "," + b == "x=3,y=3";
    PiecesSpace(a, b);
    PiecesJoin([a]);
    PiecesJoin([b]);
    SplitIsPieces(a + " " + b);
  }

  // ---------------------------------------------------------------------
  // Body
  // ---------------------------------------------------------------------

  /** The board being drawn and the cursor's row and column. */
  datatype Cursor = Cursor(board: Board, row: nat, col: nat)

  /** An ignored body character: anything but the four commands. */
  predicate Ignored(ch: char)
  {
    ch != '$' && ch != 'o' && ch != 'b' && ch != '!'
  }

  /**
   * One body line from cursor `st`. An 'o' at a cursor off the grid stops
   * the program with `OffGrid`. The board keeps its shape.
   */
  function BodyLine(st: Cursor, data: string): (r: Result<Cursor>)
    ensures r.Ok? ==> (|r.value.board| == |st.board|
      && forall i :: 0 <= i < |st.board| ==> |r.value.board[i]| == |st.board[i]|)
    decreases |data|
  {
    if |data| == 0 then Ok(st)
    else
      var ch := data[0];
      if ch == '$' then BodyLine(Cursor(st.board, st.row + 1, 0), data[1..])
      else if ch == 'o' then
        if InBounds(st.board, st.row, st.col) then
          BodyLine(Cursor(SetCell(st.board, st.row, st.col, true), st.row, st.col + 1), data[1..])
        else Err(OffGrid)
      else if ch == 'b' then BodyLine(Cursor(st.board, st.row, st.col + 1), data[1..])
      else if ch == '!' then Ok(st)
      else BodyLine(st, data[1..])
  }

  /**
   * A run of 'o' and 'b' that fits on the cursor's row draws itself there:
   * each 'o' turns on the cell below it, each 'b' leaves its cell as it was,
   * and the cursor ends just past the run.
   */
  lemma {:induction false} RowDrawn(st: Cursor, data: string)
    requires forall k :: 0 <= k < |data| ==> data[k] == 'o' || data[k] == 'b'
    requires st.row < |st.board| && st.col + |data| <= |st.board[st.row]|
    ensures BodyLine(st, data).Ok?
    ensures BodyLine(st, data).value.row == st.row && BodyLine(st, data).value.col == st.col + |data|
    ensures forall r, c :: InBounds(st.board, r, c) ==>
      (BodyLine(st, data).value.board[r][c] <==>
        st.board[r][c] || (r == st.row && st.col <= c < st.col + |data| && data[c - st.col] == 'o'))
    decreases |data|
  {
    if |data| > 0 {
      var next := if data[0] == 'o' then SetCell(st.board, st.row, st.col, true) else st.board;
      var st' := Cursor(next, st.row, st.col + 1);
      assert forall k :: 0 <= k < |data[1..]| ==> data[1..][k] == data[k + 1];
      RowDrawn(st', data[1..]);
      assert BodyLine(st, data) == BodyLine(st', data[1..]);
    }
  }

  /** The characters of `s` the body reads: its commands. */
  function Commands(s: string): (t: string)
    ensures forall i :: 0 <= i < |t| ==> !Ignored(t[i])
    ensures |t| <= |s|
  {
    if |s| == 0 then "" else (if Ignored(s[0]) then "" else [s[0]]) + Commands(s[1..])
  }

  /**
   * A '$' moves the cursor to column 0 of the next row: what follows it is
   * drawn from there on the board the text before it left.
   */
  lemma RowBreak(st: Cursor, a: string, b: string)
    requires '!' !in a && BodyLine(st, a).Ok?
    ensures BodyLine(st, a + "$" + b)
      == BodyLine(Cursor(BodyLine(st, a).value.board, BodyLine(st, a).value.row + 1, 0), b)
  {
    LinesJoin(st, a, "$" + b);
    assert a + "$" + b == a + ("$" + b);
    assert ("$" + b)[0] == '$' && ("$" + b)[1..] == b;
  }

  /** One 'o' turns on the cell under the cursor and moves one column right. */
  lemma StepOn(st: Cursor, s: string)
    requires |s| != 0 && s[0] == 'o' && InBounds(st.board, st.row, st.col)
    ensures BodyLine(st, s) == BodyLine(Cursor(SetCell(st.board, st.row, st.col, true), st.row, st.col + 1), s[1..])
  {
  }

  /** One 'b' moves one column right and leaves the board as it was. */
  lemma StepBlank(st: Cursor, s: string)
    requires |s| != 0 && s[0] == 'b'
    ensures BodyLine(st, s) == BodyLine(Cursor(st.board, st.row, st.col + 1), s[1..])
  {
  }

  /** One '$' moves to column 0 of the next row. */
  lemma StepRow(st: Cursor, s: string)
    requires |s| != 0 && s[0] == '$'
    ensures BodyLine(st, s) == BodyLine(Cursor(st.board, st.row + 1, 0), s[1..])
  {
  }

  /** One digit is skipped. */
  lemma StepCount(st: Cursor, s: string)
    requires |s| != 0 && IsDigit(s[0])
    ensures BodyLine(st, s) == BodyLine(st, s[1..])
  {
  }

  /** The first row of the glider body: "bob$" turns on (0, 1) and moves to row 1. */
  lemma GliderRow0(t: string)
    ensures BodyLine(Cursor(FromLive(3, 3, {}), 0, 0), "bob$" + t)
      == BodyLine(Cursor(FromLive(3, 3, {(0, 1)}), 1, 0), t)
  {
    var b := FromLive(3, 3, {});
    var s := "bob$" + t;
    assert s[0] == 'b' && s[1] == 'o' && s[2] == 'b' && s[3] == '$';
    assert s[1..][1..][1..][1..] == t;
    StepBlank(Cursor(b, 0, 0), s);
    StepOn(Cursor(b, 0, 1), s[1..]);
    FromLiveAdd(3, 3, {}, 0, 1);
    assert {} + {(0, 1)} == {(0, 1)};
    StepBlank(Cursor(FromLive(3, 3, {(0, 1)}), 0, 2), s[1..][1..]);
    StepRow(Cursor(FromLive(3, 3, {(0, 1)}), 0, 3), s[1..][1..][1..]);
  }

  /** The second row: "2bo$" reads as "bo$", turning on (1, 1) and moving to row 2. */
  lemma GliderRow1(t: string)
    ensures BodyLine(Cursor(FromLive(3, 3, {(0, 1)}), 1, 0), "2bo$" + t)
      == BodyLine(Cursor(FromLive(3, 3, {(0, 1), (1, 1)}), 2, 0), t)
  {
    var b := FromLive(3, 3, {(0, 1)});
    var s := "2bo$" + t;
    assert s[0] == '2' && s[1] == 'b' && s[2] == 'o' && s[3] == '$';
    assert s[1..][1..][1..][1..] == t;
    StepCount(Cursor(b, 1, 0), s);
    StepBlank(Cursor(b, 1, 0), s[1..]);
    StepOn(Cursor(b, 1, 1), s[1..][1..]);
    FromLiveAdd(3, 3, {(0, 1)}, 1, 1);
    assert {(0, 1)} + {(1, 1)} == {(0, 1), (1, 1)};
    StepRow(Cursor(FromLive(3, 3, {(0, 1), (1, 1)}), 1, 2), s[1..][1..][1..]);
  }

  /** The last row: "3o!" reads as "o!", turning on (2, 0) and stopping. */
  lemma GliderRow2()
    ensures BodyLine(Cursor(FromLive(3, 3, {(0, 1), (1, 1)}), 2, 0), "3o!")
      == Ok(Cursor(FromLive(3, 3, {(0, 1), (1, 1), (2, 0)}), 2, 1))
  {
    var b := FromLive(3, 3, {(0, 1), (1, 1)});
    var s := "3o!";
    assert s[0] == '3' && s[1] == 'o' && s[1..][1..] == "!";
    StepCount(Cursor(b, 2, 0), s);
    StepOn(Cursor(b, 2, 0), s[1..]);
    FromLiveAdd(3, 3, {(0, 1), (1, 1)}, 2, 0);
    assert {(0, 1), (1, 1)} + {(2, 0)} == {(0, 1), (1, 1), (2, 0)};
  }

  /**
   * With run counts ignored, the glider body "bob$2bo$3o!" on a blank 3 x 3
   * grid draws three cells, not the five of a glider.
   */
  lemma GliderBodyDrawsThree()
    ensures BodyLine(Cursor(Blank(3, 3), 0, 0), "bob$2bo$3o!")
      == Ok(Cursor(FromLive(3, 3, {(0, 1), (1, 1), (2, 0)}), 2, 1))
  {
    BlankIsFromLive(3, 3);
    assert "bob$2bo$3o!" == "bob$" + ("2bo$" + "3o!");
    GliderRow0("2bo$" + "3o!");
    GliderRow1("3o!");
    GliderRow2();
  }

  /** Run counts and every other non-command character change nothing. */
  lemma {:induction false} OnlyCommandsMatter(st: Cursor, s: string)
    ensures BodyLine(st, Commands(s)) == BodyLine(st, s)
    decreases |s|
  {
    if |s| > 0 {
      if Ignored(s[0]) {
        assert Commands(s) == Commands(s[1..]);
        OnlyCommandsMatter(st, s[1..]);
      } else {
        var t := Commands(s);
        assert t == [s[0]] + Commands(s[1..]);
        assert t[0] == s[0] && t[1..] == Commands(s[1..]);
        match BodyLine(st, s)
        case _ =>
          if s[0] == '$' {
            OnlyCommandsMatter(Cursor(st.board, st.row + 1, 0), s[1..]);
          } else if s[0] == 'o' {
            if InBounds(st.board, st.row, st.col) {
              OnlyCommandsMatter(Cursor(SetCell(st.board, st.row, st.col, true), st.row, st.col + 1), s[1..]);
            }
          } else if s[0] == 'b' {
            OnlyCommandsMatter(Cursor(st.board, st.row, st.col + 1), s[1..]);
          }
      }
    }
  }

  /** Digits in front of the rest of a line are skipped. */
  lemma {:induction false} DigitsSkipped(st: Cursor, d: string, s: string)
    requires AllDigits(d)
    ensures BodyLine(st, d + s) == BodyLine(st, s)
  {
    if |d| > 0 {
      assert IsDigit(d[0]) && (d + s)[0] == d[0] && (d + s)[1..] == d[1..] + s;
      assert AllDigits(d[1..]) by {
        assert forall k :: 0 <= k < |d[1..]| ==> d[1..][k] == d[k + 1];
      }
      DigitsSkipped(st, d[1..], s);
    } else {
      assert d + s == s;
    }
  }

  /** A run count is not honoured: "3o" draws what "o" draws, one cell. */
  lemma RunCountIgnored(st: Cursor, n: nat, s: string)
    ensures BodyLine(st, Show(n) + s) == BodyLine(st, s)
  {
    ShowDigits(n);
    DigitsSkipped(st, Show(n), s);
  }

  /** A '!' ends the line: nothing after it is read. */
  lemma {:induction false} BangEndsLine(st: Cursor, s: string, t: string)
    ensures BodyLine(st, s + "!" + t) == BodyLine(st, s + "!")
    decreases |s|
  {
    if |s| == 0 {
      assert s + "!" + t == "!" + t;
      assert s + "!" == "!";
    } else {
      assert (s + "!" + t)[1..] == s[1..] + "!" + t;
      assert (s + "!")[1..] == s[1..] + "!";
      var ch := s[0];
      if ch == '$' {
        BangEndsLine(Cursor(st.board, st.row + 1, 0), s[1..], t);
      } else if ch == 'o' {
        if InBounds(st.board, st.row, st.col) {
          BangEndsLine(Cursor(SetCell(st.board, st.row, st.col, true), st.row, st.col + 1), s[1..], t);
        }
      } else if ch == 'b' {
        BangEndsLine(Cursor(st.board, st.row, st.col + 1), s[1..], t);
      } else if ch != '!' {
        BangEndsLine(st, s[1..], t);
      }
    }
  }

  /** `b` read from where `a` left off, or where `a` stopped the program. */
  function Then(r: Result<Cursor>, b: string): Result<Cursor>
  {
    match r
    case Err(f) => Err(f)
    case Ok(st) => BodyLine(st, b)
  }

  /**
   * The cursor carries over a line break: reading `a` and then `b` is
   * reading `a + b`, as long as `a` has no '!'.
   */
  lemma {:induction false} LinesJoin(st: Cursor, a: string, b: string)
    requires '!' !in a
    ensures BodyLine(st, a + b) == Then(BodyLine(st, a), b)
    decreases |a|
  {
    if |a| == 0 {
      assert a + b == b;
    } else {
      assert (a + b)[1..] == a[1..] + b;
      assert a[0] in a;
      var ch := a[0];
      if ch == '$' {
        LinesJoin(Cursor(st.board, st.row + 1, 0), a[1..], b);
      } else if ch == 'o' {
        if InBounds(st.board, st.row, st.col) {
          LinesJoin(Cursor(SetCell(st.board, st.row, st.col, true), st.row, st.col + 1), a[1..], b);
        }
      } else if ch == 'b' {
        LinesJoin(Cursor(st.board, st.row, st.col + 1), a[1..], b);
      } else {
        LinesJoin(st, a[1..], b);
      }
    }
  }

  /** The body only ever turns cells on: a live cell stays live. */
  lemma {:induction false} BodyOnlyTurnsOn(st: Cursor, data: string)
    requires BodyLine(st, data).Ok?
    ensures forall r, c :: InBounds(st.board, r, c) && st.board[r][c] ==> BodyLine(st, data).value.board[r][c]
    decreases |data|
  {
    if |data| > 0 {
      var ch := data[0];
      if ch == '$' {
        BodyOnlyTurnsOn(Cursor(st.board, st.row + 1, 0), data[1..]);
      } else if ch == 'o' {
        BodyOnlyTurnsOn(Cursor(SetCell(st.board, st.row, st.col, true), st.row, st.col + 1), data[1..]);
      } else if ch == 'b' {
        BodyOnlyTurnsOn(Cursor(st.board, st.row, st.col + 1), data[1..]);
      } else if ch != '!' {
        BodyOnlyTurnsOn(st, data[1..]);
      }
    }
  }

  // ---------------------------------------------------------------------
  // The whole file
  // ---------------------------------------------------------------------

  /** A comment line: it starts with '#'. */
  predicate Comment(line: string)
  {
    |line| > 0 && line[0] == '#'
  }

  /**
   * The decoder over the remaining lines, as a value; `st` is `None` before
   * the header and the cursor after it. An empty line has no first
   * character to look at and stops the program; running out of lines before
   * any header leaves the game without a grid.
   */
  function RleFrom(lines: seq<string>, st: Option<Cursor>): Parsed
  {
    if |lines| == 0 then
      if st.None? then Absent else Parsed(st.value.board)
    else
      var data := lines[0];
      if |data| == 0 then Failed(EmptyLine)
      else if data[0] == '#' then RleFrom(lines[1..], st)
      else if st.None? then
        match Header(data)
        case None => Failed(BadHeader)
        case Some(size) => RleFrom(lines[1..], Some(Cursor(Blank(size.0, size.1), 0, 0)))
      else
        match BodyLine(st.value, data)
        case Err(f) => Failed(f)
        case Ok(next) => RleFrom(lines[1..], Some(next))
  }

  function Decode(lines: seq<string>): Parsed
  {
    RleFrom(lines, None)
  }

  /** A comment line anywhere in the file changes nothing. */
  lemma {:induction false} CommentSkippedFrom(a: seq<string>, line: string, b: seq<string>, st: Option<Cursor>)
    requires Comment(line)
    ensures RleFrom(a + [line] + b, st) == RleFrom(a + b, st)
  {
    if |a| == 0 {
      assert a + [line] + b == [line] + b;
      assert ([line] + b)[1..] == b;
      assert a + b == b;
    } else {
      assert (a + [line] + b)[1..] == a[1..] + [line] + b;
      assert (a + b)[1..] == a[1..] + b;
      assert (a + [line] + b)[0] == a[0] == (a + b)[0];
      var data := a[0];
      if |data| > 0 {
        if data[0] == '#' {
          CommentSkippedFrom(a[1..], line, b, st);
        } else if st.None? {
          if Header(data).Some? {
            var size := Header(data).value;
            CommentSkippedFrom(a[1..], line, b, Some(Cursor(Blank(size.0, size.1), 0, 0)));
          }
        } else if BodyLine(st.value, data).Ok? {
          CommentSkippedFrom(a[1..], line, b, Some(BodyLine(st.value, data).value));
        }
      }
    }
  }

  lemma CommentSkipped(a: seq<string>, line: string, b: seq<string>)
    requires Comment(line)
    ensures Decode(a + [line] + b) == Decode(a + b)
  {
    CommentSkippedFrom(a, line, b, None);
  }

  /**
   * A '!' ends only its own line: in a file, the line reads as if cut just
   * after the '!', and the lines after it are still read.
   */
  lemma BangEndsOnlyLine(s: string, t: string, rest: seq<string>, st: Cursor)
    requires |s| == 0 || s[0] != '#'
    ensures RleFrom([s + "!" + t] + rest, Some(st)) == RleFrom([s + "!"] + rest, Some(st))
  {
    BangEndsLine(st, s, t);
    assert ([s + "!" + t] + rest)[0] == s + "!" + t && ([s + "!" + t] + rest)[1..] == rest;
    assert ([s + "!"] + rest)[0] == s + "!" && ([s + "!"] + rest)[1..] == rest;
  }

  /** From any state the board keeps the shape it had. */
  lemma {:induction false} SizeFrom(lines: seq<string>, st: Cursor, rows: nat, cols: nat)
    requires IsGrid(st.board, rows, cols)
    requires RleFrom(lines, Some(st)).Parsed?
    ensures IsGrid(RleFrom(lines, Some(st)).board, rows, cols)
  {
    if |lines| > 0 {
      var data := lines[0];
      if data[0] == '#' {
        SizeFrom(lines[1..], st, rows, cols);
      } else {
        SizeFrom(lines[1..], BodyLine(st, data).value, rows, cols);
      }
    }
  }

  /** Sizing: after comment lines, the header fixes the grid: its token 6 rows by token 2 columns. */
  lemma DecodeSize(comments: seq<string>, header: string, body: seq<string>)
    requires forall i :: 0 <= i < |comments| ==> Comment(comments[i])
    requires !Comment(header) && Header(header).Some?
    requires Decode(comments + [header] + body).Parsed?
    ensures IsGrid(Decode(comments + [header] + body).board, Header(header).value.0, Header(header).value.1)
  {
    var size := Header(header).value;
    var st := Cursor(Blank(size.0, size.1), 0, 0);
    assert comments + [header] + body == comments + ([header] + body);
    calc {
      Decode(comments + [header] + body);
      RleFrom(comments + ([header] + body), None);
      { CommentsSkipped(comments, [header] + body, None); }
      RleFrom([header] + body, None);
      { HeaderStarts(header, body); }
      RleFrom(body, Some(st));
    }
    SizeFrom(body, st, size.0, size.1);
  }

  /** A usable header line starts a blank grid of its size with the cursor at (0, 0). */
  lemma HeaderStarts(header: string, body: seq<string>)
    requires !Comment(header) && Header(header).Some?
    ensures RleFrom([header] + body, None)
      == RleFrom(body, Some(Cursor(Blank(Header(header).value.0, Header(header).value.1), 0, 0)))
  {
    assert ([header] + body)[0] == header && ([header] + body)[1..] == body;
  }

  lemma {:induction false} CommentsSkipped(comments: seq<string>, rest: seq<string>, st: Option<Cursor>)
    requires forall i :: 0 <= i < |comments| ==> Comment(comments[i])
    ensures RleFrom(comments + rest, st) == RleFrom(rest, st)
  {
    if |comments| > 0 {
      assert (comments + rest)[1..] == comments[1..] + rest;
      assert (comments + rest)[0] == comments[0];
      CommentsSkipped(comments[1..], rest, st);
    } else {
      assert comments + rest == rest;
    }
  }

  /** No grid exactly when every line is a comment. */
  lemma {:induction false} AbsentIffAllComments(lines: seq<string>)
    ensures Decode(lines).Absent? <==> forall i :: 0 <= i < |lines| ==> Comment(lines[i])
  {
    if |lines| > 0 {
      AbsentIffAllComments(lines[1..]);
      if Comment(lines[0]) {
        assert forall i :: 0 < i < |lines| ==> lines[i] == lines[1..][i - 1];
      } else {
        assert !Decode(lines).Absent? by {
          if |lines[0]| > 0 && Header(lines[0]).Some? {
            var size := Header(lines[0]).value;
            NeverAbsentAfterHeader(lines[1..], Cursor(Blank(size.0, size.1), 0, 0));
          }
        }
      }
    }
  }

  lemma {:induction false} NeverAbsentAfterHeader(lines: seq<string>, st: Cursor)
    ensures !RleFrom(lines, Some(st)).Absent?
  {
    if |lines| > 0 && |lines[0]| > 0 {
      if lines[0][0] == '#' {
        NeverAbsentAfterHeader(lines[1..], st);
      } else if BodyLine(st, lines[0]).Ok? {
        NeverAbsentAfterHeader(lines[1..], BodyLine(st, lines[0]).value);
      }
    }
  }

  // ---------------------------------------------------------------------
  // The decoder as the constructor runs it
  // ---------------------------------------------------------------------

  /**
   * The source's loop over one body line, drawing on `grid` from the cursor
   * (`row0`, `col0`) and stopping at a '!'. `offGrid` reports an 'o' at a
   * cursor off the grid.
   */
  method DrawLine(grid: GridCanvas, data: string, row0: nat, col0: nat) returns (offGrid: bool, row: nat, col: nat)
    modifies grid.cells
    ensures offGrid <==> BodyLine(Cursor(old(grid.Board()), row0, col0), data).Err?
    ensures offGrid ==> BodyLine(Cursor(old(grid.Board()), row0, col0), data).fault == OffGrid
    ensures !offGrid ==> BodyLine(Cursor(old(grid.Board()), row0, col0), data) == Ok(Cursor(grid.Board(), row, col))
  {
    ghost var start := Cursor(grid.Board(), row0, col0);
    row, col := row0, col0;
    var i := 0;
    while i < |data|
      invariant i <= |data|
      invariant BodyLine(Cursor(grid.Board(), row, col), data[i..]) == BodyLine(start, data)
    {
      assert data[i..][0] == data[i] && data[i..][1..] == data[i + 1..];
      if data[i] == '$' {
        row := row + 1;
        col := 0;
      }
      if data[i] == 'o' {
        if !(row < grid.NumRows() && col < grid.NumCols()) {
          // turning this cell on indexes off the grid
          return true, row, col;
        }
        grid.TurnOn(row, col);
      }
      if data[i] == 'b' || data[i] == 'o' {
        col := col + 1;
      }
      if data[i] == '!' {
        break;
      }
      i := i + 1;
    }
    offGrid := false;
  }

  /**
   * The `.rle` branch of the game's file constructor over the lines of the
   * file. `line` counts the lines that are not comments; the grid exists
   * from the header on; `row` and `col` are the cursor.
   */
  method DecodeRle(lines: seq<string>) returns (res: Decoded)
    ensures res.Crashed? <==> Decode(lines).Failed?
    ensures res.Crashed? ==> res.fault == Decode(lines).fault
    ensures res.NoGrid? <==> Decode(lines).Absent?
    ensures res.Loaded? ==> fresh(res.grid.cells) && res.grid.Board() == Decode(lines).board
  {
    var row, col, line := 0, 0, 0;
    var grid: GridCanvas? := null;
    var k := 0;
    while k < |lines|
      invariant k <= |lines|
      invariant (line == 0) == (grid == null)
      invariant grid == null ==> row == 0 && col == 0
      invariant grid == null ==> RleFrom(lines[k..], None) == Decode(lines)
      invariant grid != null ==> fresh(grid.cells)
      invariant grid != null ==> RleFrom(lines[k..], Some(Cursor(grid.Board(), row, col))) == Decode(lines)
    {
      var data := lines[k];
      assert lines[k..][0] == data && lines[k..][1..] == lines[k + 1..];
      if |data| == 0 {
        // no first character to look at
        return Crashed(EmptyLine);
      }
      if data[0] != '#' {
        if line == 0 {
          var size := Header(data);
          if size.None? {
            return Crashed(BadHeader);
          }
          grid := new GridCanvas(size.value.0, size.value.1);
        } else {
          var offGrid;
          offGrid, row, col := DrawLine(grid, data, row, col);
          if offGrid {
            return Crashed(OffGrid);
          }
        }
        line := line + 1;
      }
      k := k + 1;
    }
    assert lines[k..] == [];
    if grid == null {
      return NoGrid;
    }
    return Loaded(grid);
  }
}
