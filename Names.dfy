/**
  The naming rules of the dataset stager: the two ground-truth classes, the
  case-insensitive marker test that labels a raw image by its file name, and
  the `{class}-{n}.jpg` scheme of processed images, with its inverse.
 */
module Names {

  datatype Option<T> = None | Some(value: T)

  /** The two classes; `DataClasses` is the order in which they are distributed. */
  datatype Label = True | False {
    /** The marker searched for in raw names and used as prefix of processed names. */
    function Marker(): (s: string)
      ensures |s| >= 4 && s[|s| - 1] == 'e'
    {
      if this == True then "true" else "false"
    }
  }

  const DataClasses: seq<Label> := [True, False]

  // ---------------------------------------------------------------------------
  // Case-insensitive substring test
  // ---------------------------------------------------------------------------

  /** Lower-casing of one character (ASCII letters only). */
  function LowerChar(ch: char): char
  {
    if 'A' <= ch <= 'Z' then (ch as int + 32) as char else ch
  }

  /** `str.lower()`, character by character. */
  function Lower(s: string): (r: string)
    ensures |r| == |s|
  {
    if s == [] then [] else [LowerChar(s[0])] + Lower(s[1..])
  }

  /** `t` occurs in `s` starting at position `i`. */
  predicate OccursAt(s: string, t: string, i: int)
  {
    0 <= i && i + |t| <= |s| && s[i..i + |t|] == t
  }

  /** Python's `t in s` on strings, scanning `s` from the left. */
  predicate Contains(s: string, t: string)
    decreases |s|
  {
    if |s| < |t| then false else s[..|t|] == t || Contains(s[1..], t)
  }

  /** The scan finds `t` exactly when `t` occurs somewhere in `s`. */
  lemma {:induction false} ContainsIff(s: string, t: string)
    ensures Contains(s, t) <==> exists i :: OccursAt(s, t, i)
    decreases |s|
  {
    if |s| >= |t| {
      if s[..|t|] == t {
        assert OccursAt(s, t, 0);
      } else {
        ContainsIff(s[1..], t);
        if Contains(s, t) {
          var i :| OccursAt(s[1..], t, i);
          assert s[1..][i..i + |t|] == s[i + 1..i + 1 + |t|];
          assert OccursAt(s, t, i + 1);
        }
        forall i | OccursAt(s, t, i) ensures OccursAt(s[1..], t, i - 1) {
          assert s[0..|t|] == s[..|t|];
          assert i != 0;
          assert s[1..][i - 1..i - 1 + |t|] == s[i..i + |t|];
        }
      }
    }
  }

  /** Lower-casing keeps a string without upper-case letters as it is. */
  lemma {:induction false} LowerKeeps(s: string)
    requires forall k :: 0 <= k < |s| ==> !('A' <= s[k] <= 'Z')
    ensures Lower(s) == s
    decreases |s|
  {
    if s != [] {
      LowerKeeps(s[1..]);
    }
  }

  /** Each marker is a word of lower-case letters, so lower-casing a name never hides it. */
  lemma MarkerLowerCase(c: Label)
    ensures forall k :: 0 <= k < |c.Marker()| ==> 'a' <= c.Marker()[k] <= 'z'
    ensures Lower(c.Marker()) == c.Marker()
  {
    LowerKeeps(c.Marker());
  }

  /**
    The label of a raw image: "true" is tested before "false", so a name that
    carries both markers is a true image; a name with neither has no label.
   */
  function Classify(name: string): Option<Label>
  {
    var low := Lower(name);
    if Contains(low, True.Marker()) then Some(True)
    else if Contains(low, False.Marker()) then Some(False)
    else None
  }

  /** A marker occurs in the lower-cased name. */
  ghost predicate HasMarker(name: string, c: Label)
  {
    exists i :: OccursAt(Lower(name), c.Marker(), i)
  }

  /** The labelling rule in terms of occurrences rather than of the scan. */
  lemma ClassifyMeaning(name: string)
    ensures Classify(name) == Some(True) <==> HasMarker(name, True)
    ensures Classify(name) == Some(False) <==> !HasMarker(name, True) && HasMarker(name, False)
    ensures Classify(name) == None <==> !HasMarker(name, True) && !HasMarker(name, False)
  {
    ContainsIff(Lower(name), True.Marker());
    ContainsIff(Lower(name), False.Marker());
  }

  // ---------------------------------------------------------------------------
  // Decimal numerals, as Python's f-string renders an int
  // ---------------------------------------------------------------------------

  predicate IsDigit(ch: char)
  {
    '0' <= ch <= '9'
  }

  predicate AllDigits(s: string)
  {
    forall i :: 0 <= i < |s| ==> IsDigit(s[i])
  }

  function NatToDecimal(n: nat): (r: string)
    ensures |r| > 0 && AllDigits(r)
    decreases n
  {
    var last := ('0' as int + n % 10) as char;
    if n < 10 then [last] else NatToDecimal(n / 10) + [last]
  }

  function DecimalValue(s: string): nat
    requires AllDigits(s)
    decreases |s|
  {
    if s == [] then 0
    else DecimalValue(s[..|s| - 1]) * 10 + (s[|s| - 1] as int - '0' as int)
  }

  /** Reading back a rendered natural number gives the number. */
  lemma {:induction false} DecimalRoundTrip(n: nat)
    ensures DecimalValue(NatToDecimal(n)) == n
    decreases n
  {
    if n >= 10 {
      DecimalRoundTrip(n / 10);
      var s := NatToDecimal(n);
      assert s[..|s| - 1] == NatToDecimal(n / 10);
    }
  }

  /** `f"{i}"` for an int: a minus sign followed by the digits of `-i` when negative. */
  function IntToDecimal(i: int): (r: string)
    ensures |r| > 0 && (i < 0 <==> r[0] == '-')
  {
    if i < 0 then "-" + NatToDecimal(-i) else NatToDecimal(i)
  }

  function ParseInt(s: string): Option<int>
  {
    if |s| > 1 && s[0] == '-' && AllDigits(s[1..]) then Some(-(DecimalValue(s[1..]) as int))
    else if |s| > 0 && AllDigits(s) then Some(DecimalValue(s))
    else None
  }

  lemma IntRoundTrip(i: int)
    ensures ParseInt(IntToDecimal(i)) == Some(i)
  {
    if i < 0 {
      DecimalRoundTrip(-i);
      assert IntToDecimal(i)[1..] == NatToDecimal(-i);
    } else {
      DecimalRoundTrip(i);
    }
  }

  // ---------------------------------------------------------------------------
  // Processed-image names
  // ---------------------------------------------------------------------------

  /** `f"{data_class}-{i}.jpg"`. */
  function FileName(c: Label, i: int): string
  {
    c.Marker() + "-" + IntToDecimal(i) + ".jpg"
  }

  /** Recovers the class and the index from a processed-image name. */
  function ParseFileName(s: string): Option<(Label, int)>
  {
    if |s| < 4 || s[|s| - 4..] != ".jpg" then None
    else
      var stem := s[..|s| - 4];
      if |stem| >= 5 && stem[..5] == "true-" then
        match ParseInt(stem[5..])
        case Some(i) => Some((True, i))
        case None => None
      else if |stem| >= 6 && stem[..6] == "false-" then
        match ParseInt(stem[6..])
        case Some(i) => Some((False, i))
        case None => None
      else None
  }

  /** Every processed name can be parsed back into its class and index. */
  lemma FileNameRoundTrip(c: Label, i: int)
    ensures ParseFileName(FileName(c, i)) == Some((c, i))
  {
    var digits := IntToDecimal(i);
    var prefix := c.Marker() + "-";
    var s := FileName(c, i);
    assert s == prefix + digits + ".jpg";
    assert s[|s| - 4..] == ".jpg";
    var stem := s[..|s| - 4];
    assert stem == prefix + digits;
    IntRoundTrip(i);
    if c == True {
      assert prefix == "true-";
      assert stem[..5] == prefix && stem[5..] == digits;
    } else {
      assert prefix == "false-";
      assert stem[0] == 'f';
      assert stem[..6] == prefix && stem[6..] == digits;
    }
  }

  /** Distinct (class, index) pairs never share a processed name. */
  lemma FileNameInjective(c: Label, i: int, d: Label, j: int)
    ensures FileName(c, i) == FileName(d, j) <==> c == d && i == j
  {
    FileNameRoundTrip(c, i);
    FileNameRoundTrip(d, j);
  }
}
