/**
 * The text of a radial chart in initRadialCharts: data-percentage split at '.', the integer
 * part shown as the number and the decimal part, when present, shown after a comma
 * before the percent sign ("12.5" reads "12" and ",5%").
 */
module RadialChart {
  import opened Wrappers

  /** String.prototype.split with a one-character separator: the pieces between separators,
      always at least one, empty pieces included. */
  function Split(s: string, sep: char): (parts: seq<string>)
    ensures |parts| >= 1
    ensures forall i :: 0 <= i < |parts| ==> sep !in parts[i]
    decreases |s|
  {
    if s == [] then [""]
    else
      var rest := Split(s[1..], sep);
      if s[0] == sep then [""] + rest
      else [[s[0]] + rest[0]] + rest[1..]
  }

  /** The pieces put back together with the separator between them. */
  function Join(parts: seq<string>, sep: char): string
    requires |parts| >= 1
  {
    if |parts| == 1 then parts[0] else parts[0] + [sep] + Join(parts[1..], sep)
  }

  /** Splitting loses nothing: joining the pieces gives the string back. */
  lemma {:induction false} JoinSplit(s: string, sep: char)
    ensures Join(Split(s, sep), sep) == s
    decreases |s|
  {
    if s != [] {
      var rest := Split(s[1..], sep);
      JoinSplit(s[1..], sep);
      if s[0] == sep {
        assert ([""] + rest)[1..] == rest;
      } else {
        var parts := [[s[0]] + rest[0]] + rest[1..];
        if |rest| == 1 {
          assert parts == [[s[0]] + rest[0]];
        } else {
          assert parts[1..] == rest[1..];
          assert Join(rest, sep) == rest[0] + [sep] + Join(rest[1..], sep);
        }
      }
    }
  }

  /** A string without the separator splits into itself alone. */
  lemma {:induction false} SplitPlain(a: string, sep: char)
    requires sep !in a
    ensures Split(a, sep) == [a]
    decreases |a|
  {
    if a != [] {
      SplitPlain(a[1..], sep);
      assert [a[0]] + a[1..] == a;
    }
  }

  /** A separator after a piece without one starts a new piece. */
  lemma {:induction false} SplitAfterPiece(a: string, sep: char, b: string)
    requires sep !in a
    ensures Split(a + [sep] + b, sep) == [a] + Split(b, sep)
    decreases |a|
  {
    var s := a + [sep] + b;
    if a == [] {
      assert s[1..] == b;
    } else {
      assert s[1..] == a[1..] + [sep] + b;
      SplitAfterPiece(a[1..], sep, b);
      assert [a[0]] + a[1..] == a;
    }
  }

  /** Joining pieces without the separator and splitting again gives the pieces back. */
  lemma {:induction false} SplitJoin(parts: seq<string>, sep: char)
    requires |parts| >= 1 && forall i :: 0 <= i < |parts| ==> sep !in parts[i]
    ensures Split(Join(parts, sep), sep) == parts
    decreases |parts|
  {
    if |parts| == 1 {
      SplitPlain(parts[0], sep);
    } else {
      SplitJoin(parts[1..], sep);
      SplitAfterPiece(parts[0], sep, Join(parts[1..], sep));
      assert [parts[0]] + parts[1..] == parts;
    }
  }

  /** What the chart shows: the .percentage-number and .percentage-text contents. */
  datatype PercentageLabel = PercentageLabel(number: string, text: string)

  /** The texts written for a data-percentage value. The number is everything before the
      first '.'; the text is a comma and the piece after that '.', when that piece is not
      empty, then '%'. */
  function LabelOf(percentage: string): (r: PercentageLabel)
    ensures '.' !in r.number
    ensures exists rest :: percentage == r.number + rest && (rest == [] || rest[0] == '.')
    ensures r.text == "%" || (|r.text| >= 3 && r.text[0] == ',' && r.text[|r.text| - 1] == '%'
                              && '.' !in r.text)
  {
    var parts := Split(percentage, '.');
    JoinSplit(percentage, '.');
    var rest := percentage[|parts[0]|..];
    assert percentage == parts[0] + rest by {
      if |parts| > 1 {
        assert Join(parts, '.') == parts[0] + ['.'] + Join(parts[1..], '.');
      }
    }
    PercentageLabel(parts[0], (if |parts| > 1 && parts[1] != "" then "," + parts[1] else "") + "%")
  }

  /** The chart text, or the TypeError thrown on `undefined.split` when the chart has no
      data-percentage attribute. */
  function RadialText(percentage: Option<string>): (r: Result<PercentageLabel, string>)
    ensures r.Success? <==> percentage.Some?
    ensures percentage.Some? ==> r.value == LabelOf(percentage.value)
  {
    match percentage
    case None => Failure("TypeError: data-percentage is missing")
    case Some(p) => Success(LabelOf(p))
  }

  /** Any value with a '.': the number is the text before the first '.', and the text after it
      is "%" when nothing stands between the first and the second '.' (or the end), else ","
      followed by that piece and "%"; everything after a second '.' is dropped. */
  lemma LabelOfPieces(p: string, i: nat, j: nat)
    requires i < j <= |p| && p[i] == '.'
    requires '.' !in p[..i] && '.' !in p[i + 1..j]
    requires j == |p| || p[j] == '.'
    ensures LabelOf(p) == PercentageLabel(p[..i], if j == i + 1 then "%" else "," + p[i + 1..j] + "%")
  {
    var piece := p[i + 1..j];
    FirstTwoPieces(p, i, j);
    assert LabelOf(p) == PercentageLabel(p[..i], (if piece != "" then "," + piece else "") + "%");
    assert piece == "" <==> j == i + 1;
  }

  /** The first two pieces of a split: up to the first separator, and from there up to the
      next separator or the end. */
  lemma FirstTwoPieces(p: string, i: nat, j: nat)
    requires i < j <= |p| && p[i] == '.'
    requires '.' !in p[..i] && '.' !in p[i + 1..j]
    requires j == |p| || p[j] == '.'
    ensures |Split(p, '.')| > 1 && Split(p, '.')[0] == p[..i] && Split(p, '.')[1] == p[i + 1..j]
  {
    SplitAt(p, '.', i);
    var b := p[i + 1..];
    assert b[..j - i - 1] == p[i + 1..j];
    FirstPiece(b, j - i - 1);
  }

  /** A separator at position i with none before it ends the first piece. */
  lemma {:induction false} SplitAt(p: string, sep: char, i: nat)
    requires i < |p| && p[i] == sep && sep !in p[..i]
    ensures Split(p, sep) == [p[..i]] + Split(p[i + 1..], sep)
    decreases i
  {
    if i > 0 {
      assert p[0] == p[..i][0];
      var t := p[1..];
      assert t[..i - 1] == p[1..i];
      assert sep !in t[..i - 1];
      SplitAt(t, sep, i - 1);
      assert t[i..] == p[i + 1..];
      assert [p[0]] + p[1..i] == p[..i];
    }
  }

  /** The first piece of a split runs up to the first separator or the end. */
  lemma FirstPiece(b: string, m: nat)
    requires m <= |b| && '.' !in b[..m] && (m == |b| || b[m] == '.')
    ensures Split(b, '.')[0] == b[..m]
  {
    if m == |b| {
      assert b[..m] == b;
      SplitPlain(b, '.');
    } else {
      SplitAt(b, '.', m);
    }
  }

  /** A whole number shows in full, followed by "%" alone. */
  lemma WholeNumberLabel(a: string)
    requires '.' !in a
    ensures LabelOf(a) == PercentageLabel(a, "%")
  {
    SplitPlain(a, '.');
  }

  /** "a.b" with a decimal part shows "a" and ",b%". */
  lemma DecimalLabel(a: string, b: string)
    requires '.' !in a && '.' !in b && b != ""
    ensures LabelOf(a + "." + b) == PercentageLabel(a, "," + b + "%")
  {
    SplitAfterPiece(a, '.', b);
    SplitPlain(b, '.');
  }

  /** A trailing '.' shows nothing after the number but "%". */
  lemma TrailingDotLabel(a: string)
    requires '.' !in a
    ensures LabelOf(a + ".") == PercentageLabel(a, "%")
  {
    SplitAfterPiece(a, '.', "");
    assert a + "." == a + ['.'] + "";
  }
}
