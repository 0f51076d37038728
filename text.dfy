/**
 * String operations the session core relies on: JavaScript's `toUpperCase`,
 * `toLowerCase` and `split` with a one-character separator.
 */
module Text {

  /**
   * Upper-case form of one character, as `String.prototype.toUpperCase`
   * gives it, for every character whose upper-case form is made of ASCII
   * characters only: the letters a-z, dotless i (U+0131), long s (U+017F),
   * sharp s (U+00DF, "SS") and the Latin ligatures U+FB00 to U+FB06 ("FF",
   * "FI", "FL", "FFI", "FFL", "ST", "ST"). Every other character is kept;
   * its real upper-case form contains a character outside ASCII, so keeping
   * it cannot change whether a string equals an ASCII label.
   */
  function UpperChar(c: char): string
  {
    if 'a' <= c <= 'z' then [(c as int - 32) as char]
    else if c == '\U{0131}' then "I"
    else if c == '\U{017F}' then "S"
    else if c == '\U{00DF}' then "SS"
    else if c == '\U{FB00}' then "FF"
    else if c == '\U{FB01}' then "FI"
    else if c == '\U{FB02}' then "FL"
    else if c == '\U{FB03}' then "FFI"
    else if c == '\U{FB04}' then "FFL"
    else if c == '\U{FB05}' || c == '\U{FB06}' then "ST"
    else [c]
  }

  function ToUpper(s: string): string
  {
    if s == [] then [] else UpperChar(s[0]) + ToUpper(s[1..])
  }

  lemma {:induction false} ToUpperAppend(a: string, b: string)
    ensures ToUpper(a + b) == ToUpper(a) + ToUpper(b)
  {
    if a != [] {
      assert (a + b)[1..] == a[1..] + b;
      ToUpperAppend(a[1..], b);
      assert ToUpper(a + b) == UpperChar(a[0]) + ToUpper(a[1..] + b);
    } else {
      assert a + b == b;
    }
  }

  /** Upper-casing leaves capital letters and spaces alone. */
  lemma {:induction false} UpperOfCapitals(s: string)
    requires forall i :: 0 <= i < |s| ==> 'A' <= s[i] <= 'Z' || s[i] == ' '
    ensures ToUpper(s) == s
  {
    if s != [] {
      assert UpperChar(s[0]) == [s[0]];
      UpperOfCapitals(s[1..]);
      assert ToUpper(s) == [s[0]] + s[1..];
    }
  }

  lemma UpperCharFixed(c: char)
    ensures ToUpper(UpperChar(c)) == UpperChar(c)
  {
    var u := UpperChar(c);
    if u == [c] {
      assert ToUpper(u) == UpperChar(c) + ToUpper([]);
    } else {
      assert forall i :: 0 <= i < |u| ==> 'A' <= u[i] <= 'Z';
      UpperOfCapitals(u);
    }
  }

  /** Upper-casing twice is upper-casing once. */
  lemma {:induction false} ToUpperIdempotent(s: string)
    ensures ToUpper(ToUpper(s)) == ToUpper(s)
  {
    if s != [] {
      ToUpperAppend(UpperChar(s[0]), ToUpper(s[1..]));
      UpperCharFixed(s[0]);
      ToUpperIdempotent(s[1..]);
    }
  }

  /**
   * Lower-case form of one character, as `toLowerCase` gives it, for every
   * character whose lower-case form is a single ASCII character: A-Z and
   * the Kelvin sign (U+212A). Every other character is kept.
   */
  function LowerChar(c: char): char
  {
    if 'A' <= c <= 'Z' then (c as int + 32) as char
    else if c == '\U{212A}' then 'k'
    else c
  }

  function ToLower(s: string): (r: string)
    ensures |r| == |s|
    ensures forall i :: 0 <= i < |s| ==> r[i] == LowerChar(s[i])
  {
    seq(|s|, i requires 0 <= i < |s| => LowerChar(s[i]))
  }

  /** `s.split(d)`: the pieces between the occurrences of `d`, in order. */
  function Split(s: string, d: char): (r: seq<string>)
    ensures |r| >= 1
  {
    if s == [] then [""]
    else
      var rest := Split(s[1..], d);
      if s[0] == d then [""] + rest
      else [[s[0]] + rest[0]] + rest[1..]
  }

  /** `parts.join(d)`, the inverse of `Split`. */
  function Join(parts: seq<string>, d: char): string
    requires |parts| >= 1
  {
    if |parts| == 1 then parts[0] else parts[0] + [d] + Join(parts[1..], d)
  }

  /** Joining the pieces of a split gives back the original string. */
  lemma {:induction false} SplitJoin(s: string, d: char)
    ensures Join(Split(s, d), d) == s
  {
    if s != [] {
      var rest := Split(s[1..], d);
      SplitJoin(s[1..], d);
      if s[0] == d {
        assert ([""] + rest)[1..] == rest;
      } else if |rest| > 1 {
        var parts := [[s[0]] + rest[0]] + rest[1..];
        assert parts[1..] == rest[1..];
        assert Join(rest, d) == rest[0] + [d] + Join(rest[1..], d);
        assert s == [s[0]] + s[1..];
      } else {
        assert s == [s[0]] + s[1..];
      }
    }
  }

  /** No piece of a split contains the separator. */
  lemma {:induction false} SplitPiecesFree(s: string, d: char)
    ensures forall i :: 0 <= i < |Split(s, d)| ==> d !in Split(s, d)[i]
  {
    if s != [] {
      SplitPiecesFree(s[1..], d);
      var rest := Split(s[1..], d);
      if s[0] != d {
        var parts := Split(s, d);
        assert parts[0] == [s[0]] + rest[0];
        forall i | 1 <= i < |parts| ensures d !in parts[i] {
          assert parts[i] == rest[i];
        }
      }
    }
  }

  /** A string without the separator splits into itself alone. */
  lemma {:induction false} SplitWithout(s: string, d: char)
    requires d !in s
    ensures Split(s, d) == [s]
  {
    if s != [] {
      assert d !in s[1..];
      SplitWithout(s[1..], d);
      assert s == [s[0]] + s[1..];
    }
  }

  /** A split yields more than one piece exactly when the separator occurs. */
  lemma {:induction false} SplitMany(s: string, d: char)
    ensures |Split(s, d)| > 1 <==> d in s
  {
    if d !in s {
      SplitWithout(s, d);
    } else if s[0] != d {
      assert d in s[1..];
      SplitMany(s[1..], d);
    }
  }

  /**
   * When the separator occurs, the last piece of the split is the text after
   * its last occurrence.
   */
  lemma {:induction false} SplitLast(s: string, d: char)
    requires d in s
    ensures exists k :: 0 <= k < |s| && s[k] == d && d !in s[k + 1..] &&
                        Split(s, d)[|Split(s, d)| - 1] == s[k + 1..]
  {
    var rest := Split(s[1..], d);
    var parts := Split(s, d);
    if d in s[1..] {
      SplitLast(s[1..], d);
      SplitMany(s[1..], d);
      var k' :| 0 <= k' < |s[1..]| && s[1..][k'] == d && d !in s[1..][k' + 1..] &&
                rest[|rest| - 1] == s[1..][k' + 1..];
      assert s[1..][k' + 1..] == s[k' + 2..];
      assert parts[|parts| - 1] == rest[|rest| - 1];
      assert s[k' + 1] == d;
    } else {
      assert s[0] == d;
      SplitWithout(s[1..], d);
      assert parts == ["", s[1..]];
    }
  }

  /**
   * Which texts lower-case to "csv" or "tsv": exactly the three-character
   * texts spelling them in any mix of cases.
   */
  lemma LowerCsvTsv(e: string)
    ensures ToLower(e) == "csv" <==> |e| == 3 && e[0] in "cC" && e[1] in "sS" && e[2] in "vV"
    ensures ToLower(e) == "tsv" <==> |e| == 3 && e[0] in "tT" && e[1] in "sS" && e[2] in "vV"
  {
    if |e| == 3 {
      var l := ToLower(e);
      assert l[0] == LowerChar(e[0]) && l[1] == LowerChar(e[1]) && l[2] == LowerChar(e[2]);
      assert l == [l[0], l[1], l[2]];
    }
  }
}
