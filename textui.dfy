/**
 * The pure input parsers of src/single_player/text_ui.rs: a line is trimmed
 * of surrounding white space, then read as two comma-separated 32-bit
 * integers (a coordinate or a board size) or as one keyword (an action or a
 * difficulty). Trimming, splitting and integer parsing follow the Rust
 * standard library functions the source calls.
 */
module TextUi {
  import opened Wrappers
  import opened Coordinates
  import opened Players
  import opened Errors
  import Games

  datatype ParseErr = BadFormat | NotNum | NegativeNum

  // ---------------------------------------------------------------------------
  // Trimming: `str::trim` removes Unicode White_Space at both ends

  /** `char::is_whitespace`: the characters with the Unicode White_Space property. */
  predicate IsWhitespace(c: char)
  {
    var n := c as int;
    (9 <= n <= 13) || n == 0x20 || n == 0x85 || n == 0xA0 || n == 0x1680
    || (0x2000 <= n <= 0x200A) || n == 0x2028 || n == 0x2029 || n == 0x202F
    || n == 0x205F || n == 0x3000
  }

  predicate AllWhitespace(s: string)
  {
    forall i :: 0 <= i < |s| ==> IsWhitespace(s[i])
  }

  /** `trim_start`: the longest suffix that does not start with white space. */
  function TrimStart(s: string): (r: string)
    ensures |r| <= |s| && r == s[|s| - |r|..]
    ensures r != [] ==> !IsWhitespace(r[0])
  {
    if s != [] && IsWhitespace(s[0]) then TrimStart(s[1..]) else s
  }

  /** What `trim_start` drops is all white space. */
  lemma {:induction false} TrimStartDropsWhitespace(s: string)
    ensures AllWhitespace(s[..|s| - |TrimStart(s)|])
  {
    if s != [] && IsWhitespace(s[0]) {
      var t := TrimStart(s[1..]);
      TrimStartDropsWhitespace(s[1..]);
      var dropped := s[..|s| - |t|];
      forall i | 0 <= i < |dropped|
        ensures IsWhitespace(dropped[i])
      {
        if i > 0 {
          assert dropped[i] == s[1..][..|s| - 1 - |t|][i - 1];
        }
      }
    }
  }

  /** `trim_end`: the longest prefix that does not end with white space. */
  function TrimEnd(s: string): (r: string)
    ensures |r| <= |s| && r == s[..|r|]
    ensures r != [] ==> !IsWhitespace(r[|r| - 1])
  {
    if s != [] && IsWhitespace(s[|s| - 1]) then TrimEnd(s[..|s| - 1]) else s
  }

  /** What `trim_end` drops is all white space. */
  lemma {:induction false} TrimEndDropsWhitespace(s: string)
    ensures AllWhitespace(s[|TrimEnd(s)|..])
  {
    if s != [] && IsWhitespace(s[|s| - 1]) {
      var init := s[..|s| - 1];
      var t := TrimEnd(init);
      TrimEndDropsWhitespace(init);
      var dropped := s[|t|..];
      forall i | 0 <= i < |dropped|
        ensures IsWhitespace(dropped[i])
      {
        if i < |dropped| - 1 {
          assert dropped[i] == init[|t|..][i];
        }
      }
    }
  }

  /** `trim`. */
  function Trim(s: string): (r: string)
    ensures r != [] ==> !IsWhitespace(r[0]) && !IsWhitespace(r[|r| - 1])
  {
    TrimEnd(TrimStart(s))
  }

  /** Leading white space before a part that does not start with it is dropped. */
  lemma {:induction false} TrimStartAround(pre: string, rest: string)
    requires AllWhitespace(pre)
    requires rest != [] ==> !IsWhitespace(rest[0])
    ensures TrimStart(pre + rest) == rest
  {
    if pre == [] {
      assert pre + rest == rest;
    } else {
      assert (pre + rest)[0] == pre[0];
      assert (pre + rest)[1..] == pre[1..] + rest;
      TrimStartAround(pre[1..], rest);
    }
  }

  /** Trailing white space after a part that does not end with it is dropped. */
  lemma {:induction false} TrimEndAround(rest: string, post: string)
    requires AllWhitespace(post)
    requires rest != [] ==> !IsWhitespace(rest[|rest| - 1])
    ensures TrimEnd(rest + post) == rest
  {
    if post == [] {
      assert rest + post == rest;
    } else {
      var s := rest + post;
      assert s[|s| - 1] == post[|post| - 1];
      assert s[..|s| - 1] == rest + post[..|post| - 1];
      TrimEndAround(rest, post[..|post| - 1]);
    }
  }

  /**
   * Trimming removes exactly the white space around a core that neither
   * starts nor ends with white space.
   */
  lemma TrimAround(pre: string, core: string, post: string)
    requires AllWhitespace(pre) && AllWhitespace(post)
    requires core != [] ==> !IsWhitespace(core[0]) && !IsWhitespace(core[|core| - 1])
    ensures Trim(pre + core + post) == core
  {
    if core != [] {
      assert pre + core + post == pre + (core + post);
      assert (core + post)[0] == core[0];
      TrimStartAround(pre, core + post);
      TrimEndAround(core, post);
    } else {
      assert pre + core + post == pre + post + [];
      assert AllWhitespace(pre + post) by {
        forall i | 0 <= i < |pre + post| ensures IsWhitespace((pre + post)[i]) {
          if i >= |pre| {
            assert (pre + post)[i] == post[i - |pre|];
          }
        }
      }
      TrimStartAround(pre + post, []);
    }
  }

  // ---------------------------------------------------------------------------
  // Splitting: `str::split(',')`

  function CommaCount(s: string): nat
  {
    if s == [] then 0 else (if s[0] == ',' then 1 else 0) + CommaCount(s[1..])
  }

  /** `split(',')`: the pieces between commas, one more than there are commas. */
  function Split(s: string): (r: seq<string>)
    ensures |r| == CommaCount(s) + 1
    ensures forall i :: 0 <= i < |r| ==> ',' !in r[i]
  {
    if s == [] then [[]]
    else
      var rest := Split(s[1..]);
      if s[0] == ',' then [[]] + rest
      else [[s[0]] + rest[0]] + rest[1..]
  }

  /** The pieces put back together with commas between them. */
  function Join(pieces: seq<string>): string
    requires |pieces| >= 1
  {
    if |pieces| == 1 then pieces[0] else pieces[0] + "," + Join(pieces[1..])
  }

  /** Joining the pieces of a split gives back the string. */
  lemma {:induction false} SplitJoin(s: string)
    ensures Join(Split(s)) == s
  {
    if s != [] {
      SplitJoin(s[1..]);
      var rest := Split(s[1..]);
      if s[0] == ',' {
        assert Split(s) == [[]] + rest;
        assert Join(Split(s)) == [] + "," + Join(rest);
      } else if |rest| == 1 {
        assert Join(Split(s)) == [s[0]] + rest[0];
      } else {
        assert Join(rest) == rest[0] + "," + Join(rest[1..]);
        assert Split(s)[1..] == rest[1..];
        assert Join(Split(s)) == [s[0]] + rest[0] + "," + Join(rest[1..]);
      }
    }
  }

  /** A comma-free prefix joins the first piece of what follows it. */
  lemma {:induction false} SplitPrefix(a: string, t: string)
    requires ',' !in a
    ensures Split(a + t) == [a + Split(t)[0]] + Split(t)[1..]
  {
    if a == [] {
      assert a + t == t;
      assert a + Split(t)[0] == Split(t)[0];
      assert Split(t) == [Split(t)[0]] + Split(t)[1..];
    } else {
      assert (a + t)[1..] == a[1..] + t;
      SplitPrefix(a[1..], t);
      assert [a[0]] + (a[1..] + Split(t)[0]) == a + Split(t)[0];
    }
  }

  /** Splitting comma-free pieces joined with commas gives back the pieces. */
  lemma {:induction false} JoinSplit(pieces: seq<string>)
    requires |pieces| >= 1
    requires forall i :: 0 <= i < |pieces| ==> ',' !in pieces[i]
    ensures Split(Join(pieces)) == pieces
  {
    if |pieces| == 1 {
      SplitPrefix(pieces[0], []);
      assert pieces[0] + [] == pieces[0];
      assert Split([]) == [[]];
      assert pieces == [pieces[0]];
    } else {
      var j := Join(pieces[1..]);
      JoinSplit(pieces[1..]);
      assert Join(pieces) == pieces[0] + ([','] + j);
      SplitPrefix(pieces[0], [','] + j);
      assert ([','] + j)[1..] == j;
      var sj := Split([','] + j);
      assert sj == [[]] + pieces[1..];
      assert sj[0] == [] && sj[1..] == pieces[1..];
      assert pieces[0] + [] == pieces[0];
      assert pieces == [pieces[0]] + pieces[1..];
    }
  }

  // ---------------------------------------------------------------------------
  // Integers: `str::parse::<i32>`

  const I32Min: int := -0x8000_0000
  const I32Max: int := 0x7FFF_FFFF

  predicate IsDigit(c: char)
  {
    '0' <= c <= '9'
  }

  predicate AllDigits(s: string)
  {
    forall i :: 0 <= i < |s| ==> IsDigit(s[i])
  }

  /** The value of a string of decimal digits, most significant first. */
  function DigitsValue(s: string): nat
    requires AllDigits(s)
  {
    if s == [] then 0
    else DigitsValue(s[..|s| - 1]) * 10 + (s[|s| - 1] as int - '0' as int)
  }

  /**
   * `parse::<i32>`: an optional sign, then at least one ASCII digit, and
   * the value must fit in 32 bits; leading zeros are allowed.
   */
  function ParseI32(s: string): (r: Option<int>)
    ensures r.Some? ==> I32Min <= r.value <= I32Max
    ensures r.Some? ==> |s| >= 1 && (IsDigit(s[0]) || s[0] == '+' || s[0] == '-')
    ensures r.Some? ==> forall i :: 0 < i < |s| ==> IsDigit(s[i])
    ensures r.Some? && r.value < 0 ==> s[0] == '-'
  {
    if s == [] then None
    else
      var negative := s[0] == '-';
      var digits := if s[0] == '+' || s[0] == '-' then s[1..] else s;
      if digits == [] || !AllDigits(digits) then None
      else
        var v: int := if negative then -(DigitsValue(digits) as int) else DigitsValue(digits);
        if I32Min <= v <= I32Max then Some(v) else None
  }

  /** The decimal digits of `n`, as `to_string` writes them. */
  function ToDecimal(n: nat): (r: string)
    ensures |r| >= 1 && AllDigits(r)
    ensures DigitsValue(r) == n
  {
    var d := ['0' + ((n % 10) as char)];
    if n < 10 then d else ToDecimal(n / 10) + d
  }

  /** Reading back the decimal digits of a value in range gives the value. */
  lemma ParseDecimal(n: nat)
    requires n <= I32Max
    ensures ParseI32(ToDecimal(n)) == Some(n)
    ensures ParseI32("+" + ToDecimal(n)) == Some(n)
  {
    assert ("+" + ToDecimal(n))[1..] == ToDecimal(n);
  }

  /** Reading back a minus sign and the digits of a value in range gives its negation. */
  lemma ParseNegativeDecimal(n: nat)
    requires n <= -I32Min
    ensures ParseI32("-" + ToDecimal(n)) == Some(-(n as int))
  {
    assert ("-" + ToDecimal(n))[1..] == ToDecimal(n);
  }

  /** Numbers are not trimmed: a piece starting with white space is not a number. */
  lemma LeadingSpaceIsNotNum(s: string)
    requires s != [] && IsWhitespace(s[0])
    ensures ParseI32(s) == None
  {
  }

  /** The two numbers of a line, once trimmed and split; none unless there are exactly two pieces. */
  function ParsePair(playerInput: string): (r: Result<(int, int), ParseErr>)
    ensures r == Err(BadFormat) <==> CommaCount(Trim(playerInput)) != 1
    ensures r == Err(NotNum) <==>
      CommaCount(Trim(playerInput)) == 1 &&
      (ParseI32(Split(Trim(playerInput))[0]).None? || ParseI32(Split(Trim(playerInput))[1]).None?)
    ensures r.Ok? ==>
      CommaCount(Trim(playerInput)) == 1 &&
      ParseI32(Split(Trim(playerInput))[0]) == Some(r.value.0) &&
      ParseI32(Split(Trim(playerInput))[1]) == Some(r.value.1)
  {
    var chars := Split(Trim(playerInput));
    if |chars| == 2 then
      match ParseI32(chars[0])
      case None => Err(NotNum)
      case Some(x) =>
        match ParseI32(chars[1])
        case None => Err(NotNum)
        case Some(y) => Ok((x, y))
    else
      Err(BadFormat)
  }

  // ---------------------------------------------------------------------------
  // The parsers

  /**
   * `parse_coordinate`: two numbers, both at least zero. The number check
   * comes before the sign check.
   */
  function ParseCoordinate(playerInput: string): (r: Result<Coord, ParseErr>)
    ensures r == Err(BadFormat) <==> ParsePair(playerInput) == Err(BadFormat)
    ensures r == Err(NotNum) <==> ParsePair(playerInput) == Err(NotNum)
    ensures r == Err(NegativeNum) <==>
      ParsePair(playerInput).Ok? && (ParsePair(playerInput).value.0 < 0 || ParsePair(playerInput).value.1 < 0)
    ensures r.Ok? ==> ParsePair(playerInput) == Ok((r.value.x as int, r.value.y as int))
  {
    match ParsePair(playerInput)
    case Err(e) => Err(e)
    case Ok((x, y)) => if x >= 0 && y >= 0 then Ok(Coord(x, y)) else Err(NegativeNum)
  }

  /** `parse_board_size`: two numbers, both above zero. */
  function ParseBoardSize(playerInput: string): (r: Result<BoardSize, ParseErr>)
    ensures r == Err(BadFormat) <==> ParsePair(playerInput) == Err(BadFormat)
    ensures r == Err(NotNum) <==> ParsePair(playerInput) == Err(NotNum)
    ensures r == Err(NegativeNum) <==>
      ParsePair(playerInput).Ok? && (ParsePair(playerInput).value.0 <= 0 || ParsePair(playerInput).value.1 <= 0)
    ensures r.Ok? ==> r.value.0 > 0 && r.value.1 > 0
    ensures r.Ok? ==> ParsePair(playerInput) == Ok((r.value.0 as int, r.value.1 as int))
  {
    match ParsePair(playerInput)
    case Err(e) => Err(e)
    case Ok((x, y)) => if x > 0 && y > 0 then Ok((x, y)) else Err(NegativeNum)
  }

  /** `parse_action`: exactly "Reveal" or "Flag" once trimmed; Unflag cannot be entered. */
  function ParseAction(playerInput: string): (r: Result<Action, ParseErr>)
    ensures r == Ok(Action.Reveal) <==> Trim(playerInput) == "Reveal"
    ensures r == Ok(Flag) <==> Trim(playerInput) == "Flag"
    ensures r.Ok? ==> !r.value.Unflag?
    ensures r.Err? ==> r.error == BadFormat
  {
    match Trim(playerInput)
    case "Reveal" => Ok(Action.Reveal)
    case "Flag" => Ok(Flag)
    case _ => Err(BadFormat)
  }

  /** `parse_difficulty`: exactly "Easy", "Medium" or "Hard" once trimmed. */
  function ParseDifficulty(playerInput: string): (r: Result<Games.Difficulty, ParseErr>)
    ensures r == Ok(Games.Easy) <==> Trim(playerInput) == "Easy"
    ensures r == Ok(Games.Medium) <==> Trim(playerInput) == "Medium"
    ensures r == Ok(Games.Hard) <==> Trim(playerInput) == "Hard"
    ensures r.Err? ==> r.error == BadFormat
  {
    match Trim(playerInput)
    case "Easy" => Ok(Games.Easy)
    case "Medium" => Ok(Games.Medium)
    case "Hard" => Ok(Games.Hard)
    case _ => Err(BadFormat)
  }

  // ---------------------------------------------------------------------------
  // Properties of the parsers

  /** The pair parsers fail with BadFormat exactly when the trimmed line has not exactly one comma. */
  lemma BadFormatIffNotOneComma(playerInput: string)
    ensures ParseCoordinate(playerInput) == Err(BadFormat) <==> CommaCount(Trim(playerInput)) != 1
    ensures ParseBoardSize(playerInput) == Err(BadFormat) <==> CommaCount(Trim(playerInput)) != 1
  {
  }

  /** A trimmed line made of two comma-free pieces is read piece by piece. */
  lemma TwoPieces(playerInput: string, a: string, b: string)
    requires Trim(playerInput) == a + "," + b && ',' !in a && ',' !in b
    ensures ParsePair(playerInput) ==
      if ParseI32(a).None? || ParseI32(b).None? then Err(NotNum)
      else Ok((ParseI32(a).value, ParseI32(b).value))
  {
    JoinSplit([a, b]);
    assert Join([a, b]) == a + "," + b;
  }

  /** The first documented example: "2,3" is the coordinate (2, 3). */
  lemma CoordinateExampleOk(playerInput: string)
    requires playerInput == "2,3"
    ensures ParseCoordinate(playerInput) == Ok(Coord(2, 3))
  {
    TrimmedWord(playerInput);
    TwoPieces(playerInput, "2", "3");
    assert ParseI32("2") == Some(2);
    assert ParseI32("3") == Some(3);
  }

  /** The second documented example: "4,k" is not a number. */
  lemma CoordinateExampleNotNum(playerInput: string)
    requires playerInput == "4,k"
    ensures ParseCoordinate(playerInput) == Err(NotNum)
  {
    TrimmedWord(playerInput);
    TwoPieces(playerInput, "4", "k");
    assert ParseI32("k") == None;
  }

  /** The third documented example: "1,2,3" has the wrong format. */
  lemma CoordinateExampleBadFormat(playerInput: string)
    requires playerInput == "1,2,3"
    ensures ParseCoordinate(playerInput) == Err(BadFormat)
  {
    var s := playerInput;
    TrimmedWord(s);
    assert s[4..][1..] == [];
    assert s[3..][1..] == s[4..];
    assert s[2..][1..] == s[3..];
    assert s[1..][1..] == s[2..];
    assert CommaCount(s[4..]) == 0;
    assert CommaCount(s[3..]) == 1;
    assert CommaCount(s[2..]) == 1;
    assert CommaCount(s[1..]) == 2;
  }

  /** Both pieces are read as numbers before any sign is looked at: "-1,k" is not a number. */
  lemma NotNumBeforeNegative(playerInput: string)
    requires playerInput == "-1,k"
    ensures ParseCoordinate(playerInput) == Err(NotNum)
  {
    TrimmedWord(playerInput);
    TwoPieces(playerInput, "-1", "k");
    assert ParseI32("k") == None;
  }

  /** Two numbers written out, with any white space around the line, are read back. */
  lemma ParsePairRoundTrip(x: nat, y: nat, pre: string, post: string)
    requires x <= I32Max && y <= I32Max
    requires AllWhitespace(pre) && AllWhitespace(post)
    ensures ParsePair(pre + ToDecimal(x) + "," + ToDecimal(y) + post) == Ok((x, y))
  {
    var dx, dy := ToDecimal(x), ToDecimal(y);
    var core := dx + "," + dy;
    assert core[0] == dx[0] && core[|core| - 1] == dy[|dy| - 1];
    assert pre + dx + "," + dy + post == pre + core + post;
    TrimAround(pre, core, post);
    assert ',' !in dx && ',' !in dy;
    TwoPieces(pre + core + post, dx, dy);
    ParseDecimal(x);
    ParseDecimal(y);
  }

  /** A coordinate written out as "x,y", with any white space around it, is read back. */
  lemma ParseCoordinateRoundTrip(c: Coord, pre: string, post: string)
    requires c.x <= I32Max && c.y <= I32Max
    requires AllWhitespace(pre) && AllWhitespace(post)
    ensures ParseCoordinate(pre + ToDecimal(c.x) + "," + ToDecimal(c.y) + post) == Ok(c)
  {
    ParsePairRoundTrip(c.x, c.y, pre, post);
  }

  /** A board size written out as "h,v", both above zero, is read back. */
  lemma ParseBoardSizeRoundTrip(h: nat, v: nat, pre: string, post: string)
    requires 0 < h <= I32Max && 0 < v <= I32Max
    requires AllWhitespace(pre) && AllWhitespace(post)
    ensures ParseBoardSize(pre + ToDecimal(h) + "," + ToDecimal(v) + post) == Ok((h, v))
  {
    ParsePairRoundTrip(h, v, pre, post);
  }

  /** A board size with a zero side is refused as not positive. */
  lemma ZeroBoardSideRefused(v: nat, pre: string, post: string)
    requires v <= I32Max
    requires AllWhitespace(pre) && AllWhitespace(post)
    ensures ParseBoardSize(pre + ToDecimal(0) + "," + ToDecimal(v) + post) == Err(NegativeNum)
    ensures ParseBoardSize(pre + ToDecimal(v) + "," + ToDecimal(0) + post) == Err(NegativeNum)
  {
    ParsePairRoundTrip(0, v, pre, post);
    ParsePairRoundTrip(v, 0, pre, post);
  }

  /** The keyword parsers read the trimmed line only. */
  lemma KeywordsReadTrimmed(a: string, b: string)
    requires Trim(a) == Trim(b)
    ensures ParseAction(a) == ParseAction(b)
    ensures ParseDifficulty(a) == ParseDifficulty(b)
  {
  }

  /** White space around a keyword does not change how it is read. */
  lemma KeywordAfterTrim(pre: string, word: string, post: string)
    requires AllWhitespace(pre) && AllWhitespace(post)
    requires word != [] ==> !IsWhitespace(word[0]) && !IsWhitespace(word[|word| - 1])
    ensures ParseAction(pre + word + post) == ParseAction(word)
    ensures ParseDifficulty(pre + word + post) == ParseDifficulty(word)
  {
    TrimAround(pre, word, post);
    TrimmedWord(word);
    KeywordsReadTrimmed(pre + word + post, word);
  }

  /** A word that neither starts nor ends with white space is its own trim. */
  lemma TrimmedWord(word: string)
    requires word != [] ==> !IsWhitespace(word[0]) && !IsWhitespace(word[|word| - 1])
    ensures Trim(word) == word
  {
    TrimAround([], word, []);
    assert [] + word + [] == word;
  }

  /** A line that trims to "Unflag" is refused: Unflag cannot be entered. */
  lemma UnflagIsRefused(playerInput: string)
    requires Trim(playerInput) == "Unflag"
    ensures ParseAction(playerInput) == Err(BadFormat)
  {
  }
}
