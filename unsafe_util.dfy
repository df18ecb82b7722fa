/**
 * UnsafeUtil: the bounds predicate shared by every checked access, the array index
 * scales and shifts of the primitive types, and the parsing and vetting of the
 * `java.version` string.
 */
module UnsafeUtil {
  import opened Primitives

  // ---------------------------------------------------------------------------------
  // Bounds

  /**
   * The test of checkBounds and assertBounds:
   * `(reqOff | reqLen | (reqOff + reqLen) | (allocSize - (reqOff + reqLen))) < 0`,
   * with Java's 64-bit wrap-around on the sum and the difference.
   */
  predicate BoundsViolated(reqOff: i64, reqLen: i64, allocSize: i64)
  {
    var sum := WrapLong(reqOff + reqLen);
    OrIsNegative([reqOff, reqLen, sum, WrapLong(allocSize - sum)])
  }

  /**
   * For a non-negative allocation the sign test is exactly the range test
   * 0 <= reqOff, 0 <= reqLen, reqOff + reqLen <= allocSize: a sum that wraps past
   * MAX_LONG turns negative and is caught.
   */
  lemma BoundsViolatedMeaning(reqOff: i64, reqLen: i64, allocSize: i64)
    ensures allocSize >= 0 ==>
              (!BoundsViolated(reqOff, reqLen, allocSize)
               <==> 0 <= reqOff && 0 <= reqLen && reqOff + reqLen <= allocSize)
  {
    if allocSize < 0 { return; }
    var sum := WrapLong(reqOff + reqLen);
    var xs := [reqOff, reqLen, sum, WrapLong(allocSize - sum)];
    if 0 <= reqOff && 0 <= reqLen && reqOff + reqLen <= allocSize {
      assert sum == reqOff + reqLen;
      assert forall i :: 0 <= i < |xs| ==> xs[i] >= 0;
    } else if reqOff < 0 {
      assert xs[0] < 0;
    } else if reqLen < 0 {
      assert xs[1] < 0;
    } else if reqOff + reqLen <= MAX_LONG {
      assert xs[3] < 0;
    } else {
      assert xs[2] < 0;
    }
  }

  /** checkBounds: throws IllegalArgumentException when the requested range does not fit. */
  function CheckBounds(reqOff: i64, reqLen: i64, allocSize: i64): (r: Outcome)
    ensures r == Pass || r == Fail(IllegalArgument)
    ensures allocSize >= 0 ==>
              (r == Pass <==> 0 <= reqOff && 0 <= reqLen && reqOff + reqLen <= allocSize)
  {
    BoundsViolatedMeaning(reqOff, reqLen, allocSize);
    if BoundsViolated(reqOff, reqLen, allocSize) then Fail(IllegalArgument) else Pass
  }

  /**
   * assertBounds: the same predicate, checked only as a Java assertion. Its result
   * is whether the assertion holds.
   */
  function AssertBounds(reqOff: i64, reqLen: i64, allocSize: i64): (holds: bool)
    ensures allocSize >= 0 ==>
              (holds <==> 0 <= reqOff && 0 <= reqLen && reqOff + reqLen <= allocSize)
    ensures holds <==> CheckBounds(reqOff, reqLen, allocSize) == Pass
  {
    BoundsViolatedMeaning(reqOff, reqLen, allocSize);
    !BoundsViolated(reqOff, reqLen, allocSize)
  }

  lemma CheckBoundsExamples()
    ensures CheckBounds(50, 50, 100) == Pass
    ensures CheckBounds(999, 2, 1000) == Fail(IllegalArgument)
  {
  }

  // ---------------------------------------------------------------------------------
  // Primitive sizes

  /** The primitive array types whose index scale is fixed (Object[] varies with the JVM). */
  datatype Prim = Boolean | Byte | Short | Char | Int | Long | Float | Double

  /** ARRAY_X_INDEX_SCALE: bytes per element. */
  function IndexScale(p: Prim): (scale: nat)
  {
    match p
    case Boolean => 1
    case Byte => 1
    case Short => 2
    case Char => 2
    case Int => 4
    case Long => 8
    case Float => 4
    case Double => 8
  }

  /** X_SHIFT: log2 of the element size, used as `bytes = count << X_SHIFT`. */
  function Shift(p: Prim): (shift: nat)
  {
    match p
    case Boolean => 0
    case Byte => 0
    case Short => 1
    case Char => 1
    case Int => 2
    case Long => 3
    case Float => 2
    case Double => 3
  }

  function Pow2(n: nat): (r: nat)
    ensures r >= 1
  {
    if n == 0 then 1 else 2 * Pow2(n - 1)
  }

  /** For every primitive, ARRAY_X_INDEX_SCALE == 1 << X_SHIFT. */
  lemma ScaleIsOneShifted(p: Prim)
    ensures IndexScale(p) == Pow2(Shift(p))
  {
    match p
    case Long => assert Pow2(3) == 2 * Pow2(2);
    case Double => assert Pow2(3) == 2 * Pow2(2);
    case _ =>
  }

  // ---------------------------------------------------------------------------------
  // java.version

  predicate IsDigit(c: char) { '0' <= c <= '9' }

  /** Characters kept by the first split of parseJavaVersion: digits and '.'. */
  predicate IsVersionChar(c: char) { IsDigit(c) || c == '.' }

  /** The separators of the first split, regex `[^0-9\\.]`. */
  predicate NotVersionChar(c: char) { !IsVersionChar(c) }

  /** The separator of the second split, regex `\\.`. */
  predicate IsDot(c: char) { c == '.' }

  predicate NoSep(s: string, sep: char -> bool)
  {
    forall i :: 0 <= i < |s| ==> !sep(s[i])
  }

  /** String.trim(): strips leading and trailing characters <= ' '. */
  function Trim(s: string): (r: string)
    ensures |r| <= |s|
    ensures |r| > 0 ==> r[0] > ' ' && r[|r| - 1] > ' '
    decreases |s|
  {
    if |s| == 0 then s
    else if s[0] <= ' ' then Trim(s[1..])
    else if s[|s| - 1] <= ' ' then Trim(s[..|s| - 1])
    else s
  }

  /**
   * The pieces of s between separator characters, empty pieces included: a string
   * with k separators has k + 1 pieces.
   */
  function Pieces(s: string, sep: char -> bool): (r: seq<string>)
    ensures |r| >= 1
    decreases |s|
  {
    if |s| == 0 then [""]
    else
      var rest := Pieces(s[1..], sep);
      if sep(s[0]) then [""] + rest else [[s[0]] + rest[0]] + rest[1..]
  }

  lemma {:induction false} PiecesOfNoSep(s: string, sep: char -> bool)
    requires NoSep(s, sep)
    ensures Pieces(s, sep) == [s]
    decreases |s|
  {
    if |s| > 0 {
      PiecesOfNoSep(s[1..], sep);
      assert [s[0]] + s[1..] == s;
    }
  }

  /** A prefix free of separators glues onto the first piece of the rest. */
  lemma {:induction false} PiecesAppendNoSep(x: string, y: string, sep: char -> bool)
    requires NoSep(x, sep)
    ensures Pieces(x + y, sep) == [x + Pieces(y, sep)[0]] + Pieces(y, sep)[1..]
    decreases |x|
  {
    var py := Pieces(y, sep);
    if |x| == 0 {
      assert x + y == y;
      assert x + py[0] == py[0];
      assert py == [py[0]] + py[1..];
    } else {
      PiecesAppendNoSep(x[1..], y, sep);
      var xy := x + y;
      assert xy[0] == x[0] && !sep(xy[0]);
      assert xy[1..] == x[1..] + y;
      var rest := Pieces(xy[1..], sep);
      assert rest == [x[1..] + py[0]] + py[1..];
      assert Pieces(xy, sep) == [[xy[0]] + rest[0]] + rest[1..];
      assert rest[1..] == py[1..];
      assert [x[0]] + (x[1..] + py[0]) == x + py[0];
    }
  }

  /** A separator ends a piece: the text before it is a piece of its own. */
  lemma PiecesAtSep(x: string, c: char, y: string, sep: char -> bool)
    requires NoSep(x, sep) && sep(c)
    ensures Pieces(x + [c] + y, sep) == [x] + Pieces(y, sep)
  {
    var cy := [c] + y;
    PiecesAppendNoSep(x, cy, sep);
    assert cy[1..] == y;
    assert Pieces(cy, sep) == [""] + Pieces(y, sep);
    assert x + [c] + y == x + cy;
    assert x + "" == x;
  }

  /** The first piece is the longest separator-free prefix. */
  lemma {:induction false} FirstPiece(s: string, sep: char -> bool)
    ensures var p := Pieces(s, sep)[0];
            |p| <= |s| && p == s[..|p|] && NoSep(p, sep) && (|p| < |s| ==> sep(s[|p|]))
    decreases |s|
  {
    if |s| > 0 {
      FirstPiece(s[1..], sep);
    }
  }

  /** Joining the pieces with a one-character separator c gives s back. */
  function Join(ps: seq<string>, c: char): string
  {
    if |ps| == 0 then "" else if |ps| == 1 then ps[0] else ps[0] + [c] + Join(ps[1..], c)
  }

  /** Splitting on '.' loses nothing: joining the pieces with '.' restores s. */
  lemma {:induction false} PiecesJoin(s: string)
    ensures Join(Pieces(s, IsDot), '.') == s
    decreases |s|
  {
    if |s| > 0 {
      var rest := Pieces(s[1..], IsDot);
      PiecesJoin(s[1..]);
      if s[0] == '.' {
        assert Pieces(s, IsDot) == [""] + rest;
        assert s == [] + ['.'] + s[1..];
      } else {
        var ps := Pieces(s, IsDot);
        assert ps == [[s[0]] + rest[0]] + rest[1..];
        if |rest| == 1 {
          assert Join(ps, '.') == [s[0]] + rest[0];
          assert s == [s[0]] + s[1..];
        } else {
          assert ps[1..] == rest[1..];
          assert Join(rest, '.') == rest[0] + ['.'] + Join(rest[1..], '.');
          assert s == [s[0]] + s[1..];
        }
      }
    }
  }

  /** No piece of a split on '.' holds a '.'. */
  lemma {:induction false} PiecesHaveNoDot(s: string)
    ensures forall p :: p in Pieces(s, IsDot) ==> '.' !in p
    decreases |s|
  {
    if |s| > 0 {
      var rest := Pieces(s[1..], IsDot);
      PiecesHaveNoDot(s[1..]);
      if s[0] != '.' {
        var ps := Pieces(s, IsDot);
        assert ps == [[s[0]] + rest[0]] + rest[1..];
        forall p | p in ps ensures '.' !in p {
          if p == [s[0]] + rest[0] {
            assert rest[0] in rest;
          } else {
            assert p in rest;
          }
        }
      }
    }
  }

  /** String.split with limit 0 drops trailing empty strings. */
  function DropTrailingEmpty(ps: seq<string>): (r: seq<string>)
    ensures |r| <= |ps|
    ensures r == ps[..|r|]
    ensures |r| > 0 ==> r[|r| - 1] != ""
    ensures forall i :: |r| <= i < |ps| ==> ps[i] == ""
  {
    if |ps| == 0 then ps
    else if ps[|ps| - 1] == "" then DropTrailingEmpty(ps[..|ps| - 1])
    else ps
  }

  /**
   * String.split(regex) for a regex that matches one character: with no match the
   * result is the string itself (so "" gives [""]); otherwise the pieces without the
   * trailing empty ones.
   */
  function JavaSplit(s: string, sep: char -> bool): (r: seq<string>)
  {
    if exists i :: 0 <= i < |s| && sep(s[i]) then DropTrailingEmpty(Pieces(s, sep)) else [s]
  }

  /** Splitting keeps every piece up to the last non-empty one. */
  lemma DropTrailingEmptyKeeps(ps: seq<string>, k: nat)
    requires k < |ps| && ps[k] != ""
    ensures |DropTrailingEmpty(ps)| > k
    ensures forall i :: 0 <= i <= k ==> DropTrailingEmpty(ps)[i] == ps[i]
  {
  }

  predicate AllDigits(s: string)
  {
    forall i :: 0 <= i < |s| ==> IsDigit(s[i])
  }

  /** The decimal value of a string of digits. */
  function DigitsValue(s: string): (v: nat)
    requires AllDigits(s)
    decreases |s|
  {
    if |s| == 0 then 0
    else
      assert IsDigit(s[|s| - 1]);
      10 * DigitsValue(s[..|s| - 1]) + (s[|s| - 1] as int - '0' as int)
  }

  /**
   * Integer.parseInt on the strings parseJavaVersion hands it, which hold only digits:
   * NumberFormatException (an Err here) for the empty string or a value above MAX_INT.
   */
  function ParseInt(s: string): (r: Result<i32>)
    ensures r.Ok? <==> 0 < |s| && AllDigits(s) && DigitsValue(s) <= MAX_INT
    ensures r.Ok? ==> r.value == DigitsValue(s)
  {
    if |s| > 0 && AllDigits(s) && DigitsValue(s) <= MAX_INT
    then Ok(DigitsValue(s))
    else Err(IllegalArgument)
  }

  /**
   * parseJavaVersion: the first two dot-separated groups of the leading run of digits
   * and dots of the trimmed string, the second defaulting to 0. A missing or
   * non-numeric group (ArrayIndexOutOfBounds- or NumberFormatException) becomes an
   * IllegalArgumentException. The version check is not applied here.
   */
  function ParseJavaVersion(jdkVer: string): (r: Result<(i32, i32)>)
    ensures r.Ok? ==> r.value.0 >= 0 && r.value.1 >= 0
    ensures r.Err? ==> r.error == IllegalArgument
  {
    var parts := JavaSplit(Trim(jdkVer), NotVersionChar);
    if |parts| == 0 then Err(IllegalArgument)
    else
      var groups := JavaSplit(parts[0], IsDot);
      if |groups| == 0 then Err(IllegalArgument)
      else
        match ParseInt(groups[0])
        case Err(e) => Err(IllegalArgument)
        case Ok(p0) =>
          if |groups| > 1 then
            match ParseInt(groups[1])
            case Err(e) => Err(IllegalArgument)
            case Ok(p1) => Ok((p0, p1))
          else Ok((p0, 0))
  }

  /**
   * checkJavaVersion: rejects major versions below 1, 1.x below 1.8, and majors above 13;
   * so exactly 1.8 and later 1.x, and 2 through 13, pass.
   */
  function CheckJavaVersion(p0: i32, p1: i32): (r: Outcome)
    ensures r == Pass <==> (p0 == 1 && p1 >= 8) || 2 <= p0 <= 13
    ensures r != Pass ==> r == Fail(IllegalArgument)
  {
    if p0 < 1 || (p0 == 1 && p1 < 8) || p0 > 13 then Fail(IllegalArgument) else Pass
  }

  lemma TrimOfTrimmed(s: string)
    requires |s| > 0 && s[0] > ' ' && s[|s| - 1] > ' '
    ensures Trim(s) == s
  {
  }

  /** The first split keeps a leading run free of separators together with what follows it up to the next separator. */
  lemma FirstSplitHead(head: string, t: string, sep: char -> bool)
    requires |head| > 0 && NoSep(head, sep)
    ensures var parts := JavaSplit(head + t, sep);
            |parts| > 0 && parts[0] == head + Pieces(t, sep)[0]
  {
    var s := head + t;
    PiecesAppendNoSep(head, t, sep);
    if exists i :: 0 <= i < |s| && sep(s[i]) {
      DropTrailingEmptyKeeps(Pieces(s, sep), 0);
    } else {
      assert NoSep(t, sep) by {
        forall i | 0 <= i < |t| ensures !sep(t[i]) { assert t[i] == s[|head| + i]; }
      }
      PiecesOfNoSep(t, sep);
      assert t + "" == t;
    }
  }

  /** The second split of "a.b" followed by nothing or by a further '.' group gives a and b first. */
  lemma SecondSplitGroups(a: string, b: string, w: string)
    requires AllDigits(a) && 0 < |b| && AllDigits(b)
    requires w == [] || w[0] == '.'
    ensures var groups := JavaSplit(a + "." + b + w, IsDot);
            |groups| > 1 && groups[0] == a && groups[1] == b
  {
    var run := a + "." + b + w;
    assert NoSep(a, IsDot) && NoSep(b, IsDot);
    assert run == a + ['.'] + (b + w);
    PiecesAtSep(a, '.', b + w, IsDot);
    PiecesAppendNoSep(b, w, IsDot);
    FirstPiece(w, IsDot);
    assert Pieces(w, IsDot)[0] == [];
    assert b + [] == b;
    var ps := Pieces(run, IsDot);
    assert ps[0] == a && ps[1] == b;
    assert run[|a|] == '.';
    DropTrailingEmptyKeeps(ps, 1);
  }

  /** parseJavaVersion once both splits are known. */
  lemma ParseFromGroups(jdkVer: string, a: string, b: string)
    requires var parts := JavaSplit(Trim(jdkVer), NotVersionChar);
             |parts| > 0 &&
             var groups := JavaSplit(parts[0], IsDot);
             |groups| > 1 && groups[0] == a && groups[1] == b
    requires 0 < |a| && AllDigits(a) && DigitsValue(a) <= MAX_INT
    requires 0 < |b| && AllDigits(b) && DigitsValue(b) <= MAX_INT
    ensures ParseJavaVersion(jdkVer) == Ok((DigitsValue(a) as i32, DigitsValue(b) as i32))
  {
  }

  /** parseJavaVersion of a version with one group. */
  lemma ParseFromOneGroup(jdkVer: string, a: string)
    requires var parts := JavaSplit(Trim(jdkVer), NotVersionChar);
             |parts| > 0 && JavaSplit(parts[0], IsDot) == [a]
    requires 0 < |a| && AllDigits(a) && DigitsValue(a) <= MAX_INT
    ensures ParseJavaVersion(jdkVer) == Ok((DigitsValue(a) as i32, 0 as i32))
  {
  }

  /**
   * For digit groups a and b followed by a tail that does not continue b with a digit,
   * the version is (a, b): "1.8.0_292" gives (1, 8), "11.0.2" gives (11, 0).
   */
  lemma ParseJavaVersionGroups(a: string, b: string, t: string)
    requires 0 < |a| && AllDigits(a) && DigitsValue(a) <= MAX_INT
    requires 0 < |b| && AllDigits(b) && DigitsValue(b) <= MAX_INT
    requires |t| == 0 || (!IsDigit(t[0]) && t[|t| - 1] > ' ')
    ensures ParseJavaVersion(a + "." + b + t) == Ok((DigitsValue(a) as i32, DigitsValue(b) as i32))
  {
    var w := FirstSplitOfVersion(a, b, t);
    SecondSplitGroups(a, b, w);
    ParseFromGroups(a + "." + b + t, a, b);
  }

  /** The first split of "a.b" + t is "a.b" followed by the digits and dots that open t. */
  lemma FirstSplitOfVersion(a: string, b: string, t: string) returns (w: string)
    requires 0 < |a| && AllDigits(a) && 0 < |b| && AllDigits(b)
    requires |t| == 0 || (!IsDigit(t[0]) && t[|t| - 1] > ' ')
    ensures w == [] || w[0] == '.'
    ensures var parts := JavaSplit(Trim(a + "." + b + t), NotVersionChar);
            |parts| > 0 && parts[0] == a + "." + b + w
  {
    var head := a + "." + b;
    var s := head + t;
    assert Trim(s) == s by {
      assert s[0] == a[0];
      if |t| == 0 { assert s[|s| - 1] == b[|b| - 1]; } else { assert s[|s| - 1] == t[|t| - 1]; }
      TrimOfTrimmed(s);
    }
    assert NoSep(head, NotVersionChar) by {
      forall i | 0 <= i < |head| ensures !NotVersionChar(head[i]) {
        if i < |a| { assert head[i] == a[i]; }
        else if i > |a| { assert head[i] == b[i - |a| - 1]; }
      }
    }
    w := Pieces(t, NotVersionChar)[0];
    FirstPiece(t, NotVersionChar);
    if |w| > 0 { assert w[0] == t[0] && IsVersionChar(t[0]); }
    FirstSplitHead(head, t, NotVersionChar);
  }

  /** A major version alone, followed by nothing or by a non-version character, has minor 0: "17" gives (17, 0). */
  lemma ParseJavaVersionMajorOnly(a: string, t: string)
    requires 0 < |a| && AllDigits(a) && DigitsValue(a) <= MAX_INT
    requires |t| == 0 || (NotVersionChar(t[0]) && t[|t| - 1] > ' ')
    ensures ParseJavaVersion(a + t) == Ok((DigitsValue(a) as i32, 0 as i32))
  {
    var s := a + t;
    assert s[0] == a[0];
    assert s[|s| - 1] > ' ' by {
      if |t| == 0 { assert s[|s| - 1] == a[|a| - 1]; } else { assert s[|s| - 1] == t[|t| - 1]; }
    }
    TrimOfTrimmed(s);
    assert NoSep(a, NotVersionChar);
    FirstSplitHead(a, t, NotVersionChar);
    FirstPiece(t, NotVersionChar);
    assert Pieces(t, NotVersionChar)[0] == [];
    assert a + [] == a;
    assert NoSep(a, IsDot);
    assert !exists i :: 0 <= i < |a| && IsDot(a[i]);
    assert JavaSplit(a, IsDot) == [a];
    ParseFromOneGroup(s, a);
  }

  lemma ParseJavaVersionExample8()
    ensures ParseJavaVersion("1.8.0_292") == Ok((1, 8))
  {
    var a, b, t := "1", "8", ".0_292";
    assert DigitsValue(a) == 1 by { assert a[..0] == []; }
    assert DigitsValue(b) == 8 by { assert b[..0] == []; }
    assert t[0] == '.' && t[5] == '2';
    ParseJavaVersionGroups(a, b, t);
    VersionString8();
  }

  /** The example version string assembled from its groups. */
  lemma VersionString8()
    ensures "1" + "." + "8" + ".0_292" == "1.8.0_292"
  {
  }

  lemma ParseJavaVersionExample17()
    ensures ParseJavaVersion("17") == Ok((17, 0))
  {
    var m: string := "17";
    assert DigitsValue(m) == 17 by { assert m[..1] == "1"; }
    ParseJavaVersionMajorOnly(m, "");
    assert m + "" == m;
  }

  /** A version with no leading digit is rejected. */
  lemma ParseJavaVersionRejects()
    ensures ParseJavaVersion("abc") == Err(IllegalArgument)
  {
    var s: string := "abc";
    TrimOfTrimmed(s);
    assert Pieces(s, NotVersionChar) == ["", "", "", ""] by {
      assert s[1..] == "bc" && s[1..][1..] == "c" && s[1..][1..][1..] == "";
    }
    assert NotVersionChar(s[0]);
  }
}
