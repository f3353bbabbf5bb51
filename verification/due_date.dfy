/** `formatDueDate`: turns what the user typed (or what the date input
    produced) into the label shown under a task. */
module DueDate {
  import opened Text

  /** The label put in front of every formatted date. */
  const Prefix: string := "Vence em: "

  /** The sequence reversed. */
  function Reverse<T>(xs: seq<T>): (r: seq<T>)
    ensures |r| == |xs|
    ensures forall k :: 0 <= k < |xs| ==> r[k] == xs[|xs| - 1 - k]
  {
    if xs == [] then [] else Reverse(xs[1..]) + [xs[0]]
  }

  /** The date components in day, month, year order: a string containing
      '/' is split on '/', any other string is split on '-' and the pieces
      reversed (the date input's year-month-day form). */
  function DateParts(s: string): (parts: seq<string>)
    ensures |parts| >= 1
  {
    if '/' in s then Split(s, '/') else Reverse(Split(s, '-'))
  }

  /** Day and month are padded on the left with '0' to two characters. */
  function Pad2(s: string): string
  {
    PadStart(s, 2, '0')
  }

  /** The display form of a due date. A string with exactly three date
      components becomes the label followed by day/month/year; anything
      else is returned as it is, so no input is rejected. */
  function FormatDueDate(s: string): (r: string)
    ensures r == s <==> |DateParts(s)| != 3
  {
    var parts := DateParts(s);
    if |parts| == 3 then
      DatePartsLength(s);
      Label(parts[0], parts[1], parts[2])
    else s
  }

  /** A formatted date starts with the label and is longer than what was
      typed. */
  lemma FormattedIsLabelled(s: string)
    ensures |DateParts(s)| == 3 ==> |FormatDueDate(s)| >= |s| + |Prefix| && FormatDueDate(s)[..|Prefix|] == Prefix
  {
    if |DateParts(s)| == 3 {
      DatePartsLength(s);
    }
  }

  /** The label followed by padded day, padded month and year, separated by '/'. */
  function Label(d: string, m: string, y: string): (r: string)
    ensures |r| >= |Prefix| + |d| + |m| + |y| + 2
    ensures r[..|Prefix|] == Prefix
  {
    var r := Prefix + Pad2(d) + "/" + Pad2(m) + "/" + y;
    assert r == Prefix + (Pad2(d) + "/" + Pad2(m) + "/" + y);
    r
  }

  /** Three components account for all of `s` but its two separators. */
  lemma DatePartsLength(s: string)
    requires |DateParts(s)| == 3
    ensures |DateParts(s)[0]| + |DateParts(s)[1]| + |DateParts(s)[2]| + 2 == |s|
  {
    var sep := if '/' in s then '/' else '-';
    var pieces := Split(s, sep);
    JoinOfSplit(s, sep);
    assert |pieces| == 3;
    assert pieces == [pieces[0], pieces[1], pieces[2]];
    JoinThree(pieces[0], pieces[1], pieces[2], sep);
  }

  /** The three pieces written out with their separator. */
  lemma JoinThree(a: string, b: string, c: string, sep: char)
    ensures Join([a, b, c], sep) == a + [sep] + b + [sep] + c
  {
    assert [a, b, c][1..] == [b, c];
    assert [b, c][1..] == [c];
    assert Join([b, c], sep) == b + [sep] + c;
    assert Join([a, b, c], sep) == a + [sep] + (b + [sep] + c);
  }

  /** Three separator-free pieces joined by the separator split back into
      those pieces. */
  lemma SplitThree(a: string, b: string, c: string, sep: char)
    requires sep !in a && sep !in b && sep !in c
    ensures Split(a + [sep] + b + [sep] + c, sep) == [a, b, c]
  {
    JoinThree(a, b, c, sep);
    SplitOfJoin([a, b, c], sep);
  }

  /** A string whose date components are known formats to their label. */
  lemma FormatOfParts(s: string, d: string, m: string, y: string)
    requires DateParts(s) == [d, m, y]
    ensures FormatDueDate(s) == Label(d, m, y)
  {
  }

  /** A day/month/year string is padded and labelled; the year is kept. */
  lemma FormatDayFirst(d: string, m: string, y: string)
    requires '/' !in d && '/' !in m && '/' !in y
    ensures FormatDueDate(d + "/" + m + "/" + y) == Label(d, m, y)
  {
    var s := d + "/" + m + "/" + y;
    SplitThree(d, m, y, '/');
    assert s[|d|] == '/';
    FormatOfParts(s, d, m, y);
  }

  /** A year-month-day string (the date input's value) comes out in
      day/month/year order, padded and labelled. */
  lemma FormatYearFirst(y: string, m: string, d: string)
    requires '/' !in y && '/' !in m && '/' !in d
    requires '-' !in y && '-' !in m && '-' !in d
    ensures FormatDueDate(y + "-" + m + "-" + d) == Label(d, m, y)
  {
    var s := y + "-" + m + "-" + d;
    SplitThree(y, m, d, '-');
    assert '/' !in s by {
      forall k | 0 <= k < |s| ensures s[k] != '/' {
        if k < |y| { assert s[k] == y[k]; }
        else if k == |y| { }
        else if k < |y| + 1 + |m| { assert s[k] == m[k - |y| - 1]; }
        else if k == |y| + 1 + |m| { }
        else { assert s[k] == d[k - |y| - |m| - 2]; }
      }
    }
    var r := Reverse([y, m, d]);
    assert r == [d, m, y] by {
      assert |r| == 3 && r[0] == d && r[1] == m && r[2] == y;
    }
    FormatOfParts(s, d, m, y);
  }

  /** The label of the date 05/03/2024. The example lemmas take their
      strings as parameters fixed by `requires`: applied to literal
      arguments, the recursive string functions are evaluated symbolically,
      which makes such proofs slow and brittle across solver seeds. */
  lemma LabelExample(d: string, m: string, y: string)
    requires d == "05" && m == "03" && y == "2024"
    ensures Label(d, m, y) == "Vence em: 05/03/2024"
  {
  }

  /** The date input's value "2024-03-05" becomes "Vence em: 05/03/2024". */
  lemma FormatYearFirstExample(y: string, m: string, d: string)
    requires y == "2024" && m == "03" && d == "05"
    ensures FormatDueDate(y + "-" + m + "-" + d) == "Vence em: 05/03/2024"
  {
    FormatYearFirst(y, m, d);
    LabelExample(d, m, y);
  }

  /** The typed "5/3/2024" becomes the same "Vence em: 05/03/2024":
      day and month gain their leading zero. */
  lemma FormatDayFirstExample(d: string, m: string, y: string)
    requires d == "5" && m == "3" && y == "2024"
    ensures FormatDueDate(d + "/" + m + "/" + y) == "Vence em: 05/03/2024"
  {
    FormatDayFirst(d, m, y);
    assert Pad2(d) == "05" && Pad2(m) == "03" by { assert Repeat('0', 1) == "0"; }
    LabelExample(Pad2(d), Pad2(m), y);
  }

  /** '/' takes precedence over '-': a string with exactly one '/' is
      split on '/' into two components, whatever '-' it holds, so it passes
      through unchanged (for instance "2024-03/05"). */
  lemma SlashTakesPrecedence(a: string, b: string)
    requires '/' !in a && '/' !in b
    ensures FormatDueDate(a + "/" + b) == a + "/" + b
  {
    var s := a + "/" + b;
    assert [a, b][1..] == [b];
    assert Join([a, b], '/') == s;
    SplitOfJoin([a, b], '/');
    assert s[|a|] == '/';
    assert |DateParts(s)| == 2;
  }

  /** A display date "dd/mm/yyyy": three '/'-separated components whose
      day and month already have at least two characters. */
  predicate IsDisplayDate(x: string)
  {
    var parts := Split(x, '/');
    |parts| == 3 && |parts[0]| >= 2 && |parts[1]| >= 2
  }

  /** The three components of a display date, joined back together. */
  lemma DisplayDateParts(x: string)
    requires IsDisplayDate(x)
    ensures var parts := Split(x, '/');
            x == parts[0] + "/" + parts[1] + "/" + parts[2]
  {
    var parts := Split(x, '/');
    JoinOfSplit(x, '/');
    assert parts == [parts[0], parts[1], parts[2]];
    JoinThree(parts[0], parts[1], parts[2], '/');
  }

  /** Formatting a display date only puts the label in front. */
  lemma FormatDisplayDate(x: string)
    requires IsDisplayDate(x)
    ensures FormatDueDate(x) == Prefix + x
  {
    var parts := Split(x, '/');
    var d, m, y := parts[0], parts[1], parts[2];
    DisplayDateParts(x);
    FormatDayFirst(d, m, y);
    LabelUnpadded(d, m, y);
  }

  /** Day and month of at least two characters need no padding. */
  lemma LabelUnpadded(d: string, m: string, y: string)
    requires |d| >= 2 && |m| >= 2
    ensures Label(d, m, y) == Prefix + (d + "/" + m + "/" + y)
  {
    assert Pad2(d) == d && Pad2(m) == m;
  }

  /** Moving a front part into the day component. */
  lemma ShiftIntoDay(p: string, d: string, m: string, y: string)
    ensures p + (d + "/" + m + "/" + y) == (p + d) + "/" + m + "/" + y
  {
  }

  /** A labelled day/month/year date, formatted again, gains a second
      label: the labelled day is already longer than two characters. */
  lemma RelabelDate(d: string, m: string, y: string)
    requires '/' !in d && '/' !in m && '/' !in y && |m| >= 2
    ensures FormatDueDate(Prefix + (d + "/" + m + "/" + y)) == Prefix + (Prefix + (d + "/" + m + "/" + y))
  {
    var d' := Prefix + d;
    LabelledHasNoSlash(d);
    calc {
      FormatDueDate(Prefix + (d + "/" + m + "/" + y));
      { ShiftIntoDay(Prefix, d, m, y); }
      FormatDueDate(d' + "/" + m + "/" + y);
      { FormatDayFirst(d', m, y); }
      Label(d', m, y);
      { LabelUnpadded(d', m, y); }
      Prefix + (d' + "/" + m + "/" + y);
      { ShiftIntoDay(Prefix, d, m, y); }
      Prefix + (Prefix + (d + "/" + m + "/" + y));
    }
  }

  /** The label itself holds no '/'. */
  lemma LabelledHasNoSlash(d: string)
    requires '/' !in d
    ensures '/' !in Prefix + d
  {
    assert '/' !in Prefix;
  }

  /** Formatting is not idempotent: re-formatting a label, as happens when
      the edit dialog's pre-filled due text is accepted, repeats the label. */
  lemma FormatRepeatsLabel(x: string)
    requires IsDisplayDate(x)
    ensures FormatDueDate(FormatDueDate(x)) == Prefix + (Prefix + x)
  {
    var parts := Split(x, '/');
    DisplayDateParts(x);
    FormatDisplayDate(x);
    RelabelDate(parts[0], parts[1], parts[2]);
  }
}
