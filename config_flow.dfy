/**
 * The two address helpers of custom_components/iqos/config_flow.py. Python's
 * `str.lower()` and `str.upper()` are modelled on ASCII letters only.
 */
module ConfigFlow {
  import opened Wrappers

  function LowerChar(c: char): char {
    if 'A' <= c <= 'Z' then (c as int + 32) as char else c
  }

  function UpperChar(c: char): char {
    if 'a' <= c <= 'z' then (c as int - 32) as char else c
  }

  /** `s.lower()` */
  function Lower(s: string): string {
    seq(|s|, i requires 0 <= i < |s| => LowerChar(s[i]))
  }

  /** `s.upper()` */
  function Upper(s: string): string {
    seq(|s|, i requires 0 <= i < |s| => UpperChar(s[i]))
  }

  /** `s.replace(a, b)` for one-character `a` and `b`. */
  function ReplaceChar(s: string, a: char, b: char): string {
    seq(|s|, i requires 0 <= i < |s| => if s[i] == a then b else s[i])
  }

  /** `s.replace(c, "")`: every `c` removed, the rest in order. */
  function RemoveChar(s: string, c: char): (r: string)
    ensures c !in r
    ensures |r| == |s| - multiset(s)[c]
    ensures forall x :: x in r ==> x in s
  {
    if s == [] then []
    else
      assert s == [s[0]] + s[1..];
      (if s[0] == c then [] else [s[0]]) + RemoveChar(s[1..], c)
  }

  /** `s[-4:]` */
  function LastFour(s: string): string {
    if |s| <= 4 then s else s[|s| - 4..]
  }

  /** `format_unique_id`: the address with `:` removed and letters lower-cased. */
  function FormatUniqueId(address: string): (r: string)
    ensures ':' !in r
    ensures |r| == |address| - multiset(address)[':']
  {
    Lower(RemoveChar(address, ':'))
  }

  lemma {:induction false} RemoveCharConcat(a: string, b: string, c: char)
    ensures RemoveChar(a + b, c) == RemoveChar(a, c) + RemoveChar(b, c)
  {
    if a == [] {
      assert a + b == b;
    } else {
      var head := if a[0] == c then [] else [a[0]];
      assert (a + b)[0] == a[0];
      assert (a + b)[1..] == a[1..] + b;
      calc {
        RemoveChar(a + b, c);
        head + RemoveChar(a[1..] + b, c);
        { RemoveCharConcat(a[1..], b, c); }
        head + (RemoveChar(a[1..], c) + RemoveChar(b, c));
        (head + RemoveChar(a[1..], c)) + RemoveChar(b, c);
        RemoveChar(a, c) + RemoveChar(b, c);
      }
    }
  }

  lemma LowerConcat(a: string, b: string)
    ensures Lower(a + b) == Lower(a) + Lower(b)
  {
    assert forall i :: 0 <= i < |a + b| ==> Lower(a + b)[i] == (Lower(a) + Lower(b))[i];
  }

  lemma {:induction false} RemoveCharAbsent(s: string, c: char)
    requires c !in s
    ensures RemoveChar(s, c) == s
  {
    if s != [] {
      assert c !in s[1..];
      RemoveCharAbsent(s[1..], c);
      assert s == [s[0]] + s[1..];
    }
  }

  /**
   * `format_unique_id` works character by character: on one character it drops
   * a colon and lower-cases anything else, and on a concatenation it is the
   * concatenation of its results. Together these say the output is the input's
   * non-colon characters, lower-cased, in their original order.
   */
  lemma FormatUniqueIdOneChar(c: char)
    ensures FormatUniqueId([c]) == if c == ':' then [] else [LowerChar(c)]
  {
    assert [c][1..] == [];
  }

  lemma FormatUniqueIdConcat(a: string, b: string)
    ensures FormatUniqueId(a + b) == FormatUniqueId(a) + FormatUniqueId(b)
  {
    RemoveCharConcat(a, b, ':');
    LowerConcat(RemoveChar(a, ':'), RemoveChar(b, ':'));
  }

  /** `format_unique_id` applied to its own output changes nothing. */
  lemma FormatUniqueIdIdempotent(address: string)
    ensures FormatUniqueId(FormatUniqueId(address)) == FormatUniqueId(address)
  {
    var r := FormatUniqueId(address);
    RemoveCharAbsent(r, ':');
    assert Lower(r) == r;
  }

  /**
   * `str.split(sep)`: the pieces between separators, always at least one, with
   * an empty piece for each leading, trailing or doubled separator.
   */
  function Split(s: string, sep: char): (r: seq<string>)
    ensures |r| == multiset(s)[sep] + 1
    ensures forall k :: 0 <= k < |r| ==> sep !in r[k]
    ensures forall k, x :: 0 <= k < |r| && x in r[k] ==> x in s
  {
    if s == [] then [[]]
    else
      assert s == [s[0]] + s[1..];
      var rest := Split(s[1..], sep);
      if s[0] == sep then [[]] + rest
      else [[s[0]] + rest[0]] + rest[1..]
  }

  /** The error `short_address` raises when `results[-2]` does not exist. */
  datatype IndexError = IndexError

  /**
   * `short_address`: `-` read as `:`, the address split at `:`, the last two
   * pieces upper-cased and joined, and the last four characters of that kept.
   */
  function ShortAddress(address: string): (r: Result<string, IndexError>)
    ensures r.Success? <==> ':' in address || '-' in address
    ensures r.Success? ==> |r.value| <= 4 && ':' !in r.value && '-' !in r.value
  {
    var normalised := ReplaceChar(address, '-', ':');
    NormalisedSeparators(address);
    var results := Split(normalised, ':');
    if |results| < 2 then
      Failure(IndexError)
    else
      var joined := Upper(results[|results| - 2]) + Upper(results[|results| - 1]);
      UpperWithoutSeparators(results[|results| - 2]);
      UpperWithoutSeparators(results[|results| - 1]);
      Success(LastFour(joined))
  }

  /** After `replace("-", ":")` no `-` is left, and a `:` is left iff there was a separator. */
  lemma NormalisedSeparators(address: string)
    ensures '-' !in ReplaceChar(address, '-', ':')
    ensures ':' in ReplaceChar(address, '-', ':') <==> ':' in address || '-' in address
  {
    var s := ReplaceChar(address, '-', ':');
    if ':' in s {
      var k :| 0 <= k < |s| && s[k] == ':';
      assert address[k] == ':' || address[k] == '-';
    }
    if ':' in address || '-' in address {
      var k :| 0 <= k < |address| && (address[k] == ':' || address[k] == '-');
      assert s[k] == ':';
    }
  }

  /** Upper-casing adds no separator. */
  lemma UpperWithoutSeparators(piece: string)
    ensures ':' in Upper(piece) ==> ':' in piece
    ensures '-' in Upper(piece) ==> '-' in piece
  {
    var u := Upper(piece);
    if ':' in u {
      var k :| 0 <= k < |u| && u[k] == ':';
      assert piece[k] == ':';
    }
    if '-' in u {
      var k :| 0 <= k < |u| && u[k] == '-';
      assert piece[k] == '-';
    }
  }

  lemma {:induction false} SplitConcat(a: string, b: string, sep: char)
    ensures Split(a + [sep] + b, sep) == Split(a, sep) + Split(b, sep)
  {
    if a == [] {
      assert a + [sep] + b == [sep] + b;
      assert ([sep] + b)[1..] == b;
    } else {
      assert (a + [sep] + b)[1..] == a[1..] + [sep] + b;
      SplitConcat(a[1..], b, sep);
    }
  }

  lemma {:induction false} SplitWithoutSeparator(s: string, sep: char)
    requires sep !in s
    ensures Split(s, sep) == [s]
  {
    if s != [] {
      assert sep !in s[1..];
      SplitWithoutSeparator(s[1..], sep);
      assert s == [s[0]] + s[1..];
    }
  }

  predicate Separator(c: char) {
    c == ':' || c == '-'
  }

  /**
   * For an address with at least two separators whose last two pieces are
   * exactly `x` and `y`, the result is the last four characters of `X + Y`,
   * upper-cased, whatever comes before, and whichever of `:` and `-` separate
   * them.
   */
  lemma ShortAddressLastTwoPieces(prefix: string, s1: char, x: string, s2: char, y: string)
    requires Separator(s1) && Separator(s2)
    requires forall k :: 0 <= k < |x| ==> !Separator(x[k])
    requires forall k :: 0 <= k < |y| ==> !Separator(y[k])
    ensures ShortAddress(prefix + [s1] + x + [s2] + y) == Success(LastFour(Upper(x) + Upper(y)))
  {
    var p := ReplaceChar(prefix, '-', ':');
    NormalisedAddress(prefix, s1, x, s2, y);
    var results := Split(p + [':'] + x + [':'] + y, ':');
    LastTwoPieces(p, x, y);
    assert results[|results| - 2] == x && results[|results| - 1] == y;
  }

  /** Reading `-` as `:` turns the separators into `:` and leaves `x` and `y` alone. */
  lemma NormalisedAddress(prefix: string, s1: char, x: string, s2: char, y: string)
    requires Separator(s1) && Separator(s2)
    requires forall k :: 0 <= k < |x| ==> !Separator(x[k])
    requires forall k :: 0 <= k < |y| ==> !Separator(y[k])
    ensures ReplaceChar(prefix + [s1] + x + [s2] + y, '-', ':') ==
      ReplaceChar(prefix, '-', ':') + [':'] + x + [':'] + y
  {
    var a := prefix + [s1] + x + [s2] + y;
    var b := ReplaceChar(prefix, '-', ':') + [':'] + x + [':'] + y;
    assert |ReplaceChar(a, '-', ':')| == |b|;
    forall i | 0 <= i < |a| ensures ReplaceChar(a, '-', ':')[i] == b[i] {
      if i < |prefix| {
      } else if i == |prefix| {
      } else if i < |prefix| + 1 + |x| {
        assert a[i] == x[i - |prefix| - 1];
      } else if i == |prefix| + 1 + |x| {
      } else {
        assert a[i] == y[i - |prefix| - 2 - |x|];
      }
    }
  }

  /** The last two pieces of `p : x : y`, when `x` and `y` hold no `:`, are `x` and `y`. */
  lemma LastTwoPieces(p: string, x: string, y: string)
    requires ':' !in x && ':' !in y
    ensures Split(p + [':'] + x + [':'] + y, ':') == Split(p, ':') + [x] + [y]
  {
    SplitWithoutSeparator(x, ':');
    SplitWithoutSeparator(y, ':');
    SplitConcat(p, x, ':');
    SplitConcat(p + [':'] + x, y, ':');
  }

  /**
   * An address with exactly one separator: the result is the last four
   * characters of the two pieces, upper-cased and joined.
   */
  lemma ShortAddressTwoPieces(x: string, s: char, y: string)
    requires Separator(s)
    requires forall k :: 0 <= k < |x| ==> !Separator(x[k])
    requires forall k :: 0 <= k < |y| ==> !Separator(y[k])
    ensures ShortAddress(x + [s] + y) == Success(LastFour(Upper(x) + Upper(y)))
  {
    var a := x + [s] + y;
    var b := x + [':'] + y;
    forall i | 0 <= i < |a| ensures ReplaceChar(a, '-', ':')[i] == b[i] {
      if i < |x| {
      } else if i == |x| {
      } else {
        assert a[i] == y[i - |x| - 1];
      }
    }
    assert ReplaceChar(a, '-', ':') == b;
    assert ':' !in x && ':' !in y;
    SplitConcat(x, y, ':');
    SplitWithoutSeparator(x, ':');
    SplitWithoutSeparator(y, ':');
    assert Split(b, ':') == [x, y];
  }

  /** `-` and `:` are interchangeable: addresses equal up to that swap give the same result. */
  lemma ShortAddressSeparatorsAlike(a: string, b: string)
    requires |a| == |b|
    requires forall k :: 0 <= k < |a| ==> a[k] == b[k] || (Separator(a[k]) && Separator(b[k]))
    ensures ShortAddress(a) == ShortAddress(b)
  {
    assert ReplaceChar(a, '-', ':') == ReplaceChar(b, '-', ':');
  }

  /** The usual forms of a Bluetooth address. */
  lemma ShortAddressColonExample()
    ensures ShortAddress("AA:BB:CC:DD:EE:FF") == Success("EEFF")
  {
    var x, y := "EE", "FF";
    assert "AA:BB:CC:DD" + [':'] + x + [':'] + y == "AA:BB:CC:DD:EE:FF";
    ShortAddressLastTwoPieces("AA:BB:CC:DD", ':', x, ':', y);
    assert Upper(x) == x && Upper(y) == y;
    assert LastFour(x + y) == "EEFF";
  }

  lemma ShortAddressDashExample()
    ensures ShortAddress("aa-bb-cc-dd-ee-ff") == Success("EEFF")
  {
    var x, y := "ee", "ff";
    assert "aa-bb-cc-dd" + ['-'] + x + ['-'] + y == "aa-bb-cc-dd-ee-ff";
    ShortAddressLastTwoPieces("aa-bb-cc-dd", '-', x, '-', y);
    assert UpperChar('e') == 'E' && UpperChar('f') == 'F';
    assert Upper(x) == "EE" && Upper(y) == "FF";
    assert LastFour("EE" + "FF") == "EEFF";
  }

  lemma ShortAddressWithoutSeparatorFails()
    ensures ShortAddress("AABBCCDDEEFF") == Failure(IndexError)
  {
    assert ':' !in "AABBCCDDEEFF" && '-' !in "AABBCCDDEEFF";
  }
}
