/** `remove_invalid_chars_from_filename` and `pick_filename`.  The date is
    passed in as year, month and day. */
module Filename {
  import opened Wrappers
  import opened Text

  /** The characters removed from file names. */
  const InvalidChars: string := "<>:\"/\\|?*"

  /** `remove_invalid_chars_from_filename`: one `replace(c, '')` per invalid
      character; the result is the name with those characters filtered out. */
  method RemoveInvalidChars(filename: string) returns (r: string)
    ensures r == Without(filename, InvalidChars)
  {
    r := filename;
    WithoutClean(filename, "");
    var k := 0;
    while k < |InvalidChars|
      invariant 0 <= k <= |InvalidChars|
      invariant r == Without(filename, InvalidChars[..k])
    {
      var c := InvalidChars[k];
      ReplaceCharByNothing(r, c);
      WithoutThenWithout(filename, InvalidChars[..k], [c]);
      assert InvalidChars[..k] + [c] == InvalidChars[..k + 1];
      r := Replace(r, [c], "");
      k := k + 1;
    }
    assert InvalidChars[..k] == InvalidChars;
  }

  /** No invalid character is left, every other one is kept, and a second
      pass changes nothing. */
  lemma RemoveInvalidCharsSound(filename: string)
    ensures forall i :: 0 <= i < |Without(filename, InvalidChars)| ==> Without(filename, InvalidChars)[i] !in InvalidChars
    ensures forall c :: c !in InvalidChars ==> multiset(Without(filename, InvalidChars))[c] == multiset(filename)[c]
    ensures Without(Without(filename, InvalidChars), InvalidChars) == Without(filename, InvalidChars)
  {
    WithoutClean(Without(filename, InvalidChars), InvalidChars);
  }

  // ---- The date as `strftime('%Y%m%d')` writes it ----

  predicate IsDigit(c: char)
  {
    '0' <= c <= '9'
  }

  function DigitChar(v: nat): (c: char)
    requires v < 10
    ensures IsDigit(c) && c as int - '0' as int == v
  {
    ('0' as int + v) as char
  }

  function Pow10(k: nat): (p: nat)
    ensures p >= 1
  {
    if k == 0 then 1 else 10 * Pow10(k - 1)
  }

  /** `n` written with exactly `width` decimal digits, zero-padded. */
  function PadDigits(n: nat, width: nat): (r: string)
    ensures |r| == width
    ensures forall i :: 0 <= i < |r| ==> IsDigit(r[i])
  {
    if width == 0 then "" else PadDigits(n / 10, width - 1) + [DigitChar(n % 10)]
  }

  function DigitValue(c: char): nat
    requires IsDigit(c)
  {
    c as int - '0' as int
  }

  /** The number a string of decimal digits denotes. */
  function DecimalValue(s: string): nat
    requires forall i :: 0 <= i < |s| ==> IsDigit(s[i])
  {
    if s == [] then 0 else DecimalValue(s[..|s| - 1]) * 10 + DigitValue(s[|s| - 1])
  }

  /** Zero-padding loses nothing when the number fits the width. */
  lemma {:induction false} PadDigitsValue(n: nat, width: nat)
    requires n < Pow10(width)
    ensures DecimalValue(PadDigits(n, width)) == n
  {
    if width > 0 {
      assert n / 10 < Pow10(width - 1);
      PadDigitsValue(n / 10, width - 1);
      var r := PadDigits(n, width);
      assert r[..|r| - 1] == PadDigits(n / 10, width - 1);
    }
  }

  predicate ValidDate(year: nat, month: nat, day: nat)
  {
    1000 <= year <= 9999 && 1 <= month <= 12 && 1 <= day <= 31
  }

  /** `date.strftime('%Y%m%d')`: eight digits, reading back as year, month
      and day. */
  function DateStamp(year: nat, month: nat, day: nat): (r: string)
    requires ValidDate(year, month, day)
    ensures |r| == 8 && forall i :: 0 <= i < 8 ==> IsDigit(r[i])
    ensures DecimalValue(r[..4]) == year && DecimalValue(r[4..6]) == month && DecimalValue(r[6..]) == day
  {
    var r := PadDigits(year, 4) + PadDigits(month, 2) + PadDigits(day, 2);
    PadDigitsValue(year, 4);
    PadDigitsValue(month, 2);
    PadDigitsValue(day, 2);
    assert r[..4] == PadDigits(year, 4) && r[4..6] == PadDigits(month, 2) && r[6..] == PadDigits(day, 2);
    r
  }

  // ---- `' '.join(s.split())` ----

  /** A maximal run of non-whitespace characters. */
  predicate IsWord(w: string)
  {
    |w| > 0 && forall i :: 0 <= i < |w| ==> !IsSpace(w[i])
  }

  function RunLength(s: string): (n: nat)
    ensures n <= |s|
    ensures forall i :: 0 <= i < n ==> !IsSpace(s[i])
    ensures n < |s| ==> IsSpace(s[n])
  {
    if s == [] || IsSpace(s[0]) then 0 else 1 + RunLength(s[1..])
  }

  /** `s.split()`: the words of `s`, in order. */
  function Words(s: string): (ws: seq<string>)
    ensures forall k :: 0 <= k < |ws| ==> IsWord(ws[k])
    decreases |s|
  {
    if s == [] then []
    else if IsSpace(s[0]) then Words(s[1..])
    else
      var n := RunLength(s);
      [s[..n]] + Words(s[n..])
  }

  /** `' '.join(ws)`, which is also defined on an empty list of words. */
  function JoinSpaced(ws: seq<string>): string
  {
    if |ws| == 0 then "" else Join(ws, ' ')
  }

  function NormalizeSpaces(s: string): string
  {
    JoinSpaced(Words(s))
  }

  /** No whitespace at either end, none next to other whitespace, and every
      whitespace character a plain space. */
  predicate Tidy(t: string)
  {
    forall i :: 0 <= i < |t| && IsSpace(t[i]) ==>
      t[i] == ' ' && 0 < i < |t| - 1 && !IsSpace(t[i - 1]) && !IsSpace(t[i + 1])
  }

  /** The non-whitespace characters of `s`, in order. */
  function Visible(s: string): string
  {
    if s == [] then [] else (if IsSpace(s[0]) then [] else [s[0]]) + Visible(s[1..])
  }

  function Concat(ws: seq<string>): string
  {
    if |ws| == 0 then "" else ws[0] + Concat(ws[1..])
  }

  lemma {:induction false} VisibleAppend(a: string, b: string)
    ensures Visible(a + b) == Visible(a) + Visible(b)
  {
    if a == [] {
      assert a + b == b;
    } else {
      var head := if IsSpace(a[0]) then [] else [a[0]];
      calc {
        Visible(a + b);
        { assert (a + b)[0] == a[0] && (a + b)[1..] == a[1..] + b; }
        head + Visible(a[1..] + b);
        { VisibleAppend(a[1..], b); }
        head + (Visible(a[1..]) + Visible(b));
        head + Visible(a[1..]) + Visible(b);
        Visible(a) + Visible(b);
      }
    }
  }

  lemma {:induction false} VisibleOfWord(w: string)
    requires forall i :: 0 <= i < |w| ==> !IsSpace(w[i])
    ensures Visible(w) == w
  {
    if w != [] {
      VisibleOfWord(w[1..]);
    }
  }

  lemma {:induction false} VisibleChars(s: string, c: char)
    ensures c in Visible(s) <==> c in s && !IsSpace(c)
  {
    if s != [] {
      VisibleChars(s[1..], c);
      assert s == [s[0]] + s[1..];
    }
  }

  lemma {:induction false} VisibleOfJoin(ws: seq<string>)
    requires forall k :: 0 <= k < |ws| ==> IsWord(ws[k])
    ensures Visible(JoinSpaced(ws)) == Concat(ws)
  {
    if |ws| == 1 {
      VisibleOfWord(ws[0]);
      assert Concat(ws) == ws[0] + Concat([]);
    } else if |ws| > 1 {
      var rest := JoinSpaced(ws[1..]);
      assert JoinSpaced(ws) == ws[0] + " " + rest;
      VisibleOfJoin(ws[1..]);
      VisibleOfWord(ws[0]);
      VisibleAppend(ws[0] + " ", rest);
      VisibleAppend(ws[0], " ");
      assert Concat(ws) == ws[0] + Concat(ws[1..]);
    }
  }

  lemma {:induction false} ConcatOfWords(s: string)
    ensures Concat(Words(s)) == Visible(s)
    decreases |s|
  {
    if s != [] {
      if IsSpace(s[0]) {
        ConcatOfWords(s[1..]);
      } else {
        var n := RunLength(s);
        ConcatOfWords(s[n..]);
        assert s == s[..n] + s[n..];
        VisibleAppend(s[..n], s[n..]);
        VisibleOfWord(s[..n]);
        assert ([s[..n]] + Words(s[n..]))[1..] == Words(s[n..]);
      }
    }
  }

  /** Normalising whitespace keeps every other character, in order. */
  lemma NormalizeKeepsVisible(s: string)
    ensures Visible(NormalizeSpaces(s)) == Visible(s)
  {
    VisibleOfJoin(Words(s));
    ConcatOfWords(s);
  }

  /** Joining tidy, non-empty pieces with one space gives a tidy string. */
  lemma TidyJoin(a: string, b: string)
    requires Tidy(a) && Tidy(b) && |a| > 0 && |b| > 0
    requires !IsSpace(a[|a| - 1]) && !IsSpace(b[0])
    ensures Tidy(a + " " + b)
  {
    var t := a + " " + b;
    forall i | 0 <= i < |t| && IsSpace(t[i])
      ensures t[i] == ' ' && 0 < i < |t| - 1 && !IsSpace(t[i - 1]) && !IsSpace(t[i + 1])
    {
      if i < |a| {
        assert t[i] == a[i];
        if i == |a| - 1 {
        } else {
          assert t[i + 1] == a[i + 1];
        }
        assert t[i - 1] == a[i - 1];
      } else if i > |a| {
        assert t[i] == b[i - |a| - 1];
        assert IsSpace(b[i - |a| - 1]);
        if i - |a| - 1 == 0 {
        } else {
          assert t[i - 1] == b[i - |a| - 2];
        }
        assert t[i + 1] == b[i - |a|];
      }
    }
  }

  lemma {:induction false} JoinSpacedTidy(ws: seq<string>)
    requires forall k :: 0 <= k < |ws| ==> IsWord(ws[k])
    ensures Tidy(JoinSpaced(ws))
    ensures |ws| > 0 ==>
              (|JoinSpaced(ws)| > 0 && !IsSpace(JoinSpaced(ws)[0])
               && !IsSpace(JoinSpaced(ws)[|JoinSpaced(ws)| - 1]))
  {
    if |ws| == 1 {
      assert IsWord(ws[0]);
    } else if |ws| > 1 {
      JoinSpacedTidy(ws[1..]);
      var rest := JoinSpaced(ws[1..]);
      assert IsWord(ws[0]);
      TidyJoin(ws[0], rest);
      assert JoinSpaced(ws) == ws[0] + " " + rest;
      assert JoinSpaced(ws)[|JoinSpaced(ws)| - 1] == rest[|rest| - 1];
    }
  }

  /** A tidy string followed by characters that are not whitespace is tidy. */
  lemma TidyAppend(a: string, b: string)
    requires Tidy(a) && forall i :: 0 <= i < |b| ==> !IsSpace(b[i])
    ensures Tidy(a + b)
  {
    var t := a + b;
    forall i | 0 <= i < |t| && IsSpace(t[i])
      ensures t[i] == ' ' && 0 < i < |t| - 1 && !IsSpace(t[i - 1]) && !IsSpace(t[i + 1])
    {
      if i < |a| {
        assert t[i] == a[i] && t[i - 1] == a[i - 1] && t[i + 1] == a[i + 1];
      }
    }
  }

  /** The last two steps of `pick_filename`: normalise whitespace, then add
      `.ipuz` unless the name already ends with it. */
  function Finish(t: string): (name: string)
    ensures EndsWith(name, ".ipuz")
    ensures Tidy(name)
    ensures Visible(name) == Visible(t) || Visible(name) == Visible(t) + ".ipuz"
  {
    var n := NormalizeSpaces(t);
    JoinSpacedTidy(Words(t));
    NormalizeKeepsVisible(t);
    if EndsWith(n, ".ipuz") then n
    else
      TidyAppend(n, ".ipuz");
      VisibleAppend(n, ".ipuz");
      VisibleOfWord(".ipuz");
      n + ".ipuz"
  }

  // ---- `pick_filename` ----

  /** `value or ''`. */
  function OrEmpty(value: Option<string>): string
  {
    if value.Some? then value.value else ""
  }

  /** The `tokens` dictionary, in its insertion order. */
  function Tokens(outletPrefix: Option<string>, title: Option<string>, author: Option<string>): (ts: seq<(string, string)>)
    ensures |ts| == 3 && forall k :: 0 <= k < 3 ==> |ts[k].0| > 0
  {
    [("prefix", OrEmpty(outletPrefix)), ("title", OrEmpty(title)), ("author", OrEmpty(author))]
  }

  /** The f-string, with the raw values. */
  function Template(outletPrefix: Option<string>, title: Option<string>, stamp: string): string
  {
    OrEmpty(outletPrefix) + " - " + stamp + " - " + OrEmpty(title)
  }

  /** The token loop: every occurrence of each token's NAME in the template
      is replaced by its sanitised value. */
  function ApplyTokens(t: string, ts: seq<(string, string)>): string
    requires forall k :: 0 <= k < |ts| ==> |ts[k].0| > 0
  {
    if |ts| == 0 then t
    else
      var last := ts[|ts| - 1];
      Replace(ApplyTokens(t, ts[..|ts| - 1]), last.0, Without(last.1, InvalidChars))
  }

  /** The name `pick_filename` returns. */
  function FilenameAsWritten(outletPrefix: Option<string>, title: Option<string>, author: Option<string>,
                             year: nat, month: nat, day: nat): string
    requires ValidDate(year, month, day)
  {
    Finish(ApplyTokens(Template(outletPrefix, title, DateStamp(year, month, day)),
                       Tokens(outletPrefix, title, author)))
  }

  /** `pick_filename`. */
  method PickFilename(outletPrefix: Option<string>, title: Option<string>, author: Option<string>,
                      year: nat, month: nat, day: nat) returns (name: string)
    requires ValidDate(year, month, day)
    ensures name == FilenameAsWritten(outletPrefix, title, author, year, month, day)
    ensures EndsWith(name, ".ipuz") && Tidy(name)
  {
    var tokens := Tokens(outletPrefix, title, author);
    var template := Template(outletPrefix, title, DateStamp(year, month, day));
    ghost var start := template;
    var k := 0;
    while k < |tokens|
      invariant 0 <= k <= |tokens|
      invariant template == ApplyTokens(start, tokens[..k])
    {
      var value := RemoveInvalidChars(tokens[k].1);
      assert tokens[..k + 1][..k] == tokens[..k];
      template := Replace(template, tokens[k].0, value);
      k := k + 1;
    }
    assert tokens[..k] == tokens;
    FinishSteps(template);
    template := NormalizeSpaces(template);
    if !EndsWith(template, ".ipuz") {
      template := template + ".ipuz";
    }
    name := template;
  }

  /** `Finish` as the two statements `pick_filename` runs. */
  lemma FinishSteps(t: string)
    ensures Finish(t) == if EndsWith(NormalizeSpaces(t), ".ipuz") then NormalizeSpaces(t)
                         else NormalizeSpaces(t) + ".ipuz"
  {
  }

  /** Token names whose first letter does not occur leave the template as
      it is. */
  lemma {:induction false} ApplyTokensAbsent(t: string, ts: seq<(string, string)>)
    requires forall k :: 0 <= k < |ts| ==> |ts[k].0| > 0 && ts[k].0[0] !in t
    ensures ApplyTokens(t, ts) == t
  {
    if |ts| > 0 {
      var prefix := ts[..|ts| - 1];
      assert forall k :: 0 <= k < |prefix| ==> prefix[k] == ts[k];
      ApplyTokensAbsent(t, prefix);
      ReplaceAbsent(t, ts[|ts| - 1].0, Without(ts[|ts| - 1].1, InvalidChars));
    }
  }

  lemma SlashVisible(t: string)
    requires '/' in t
    ensures '/' in Visible(t)
  {
    VisibleChars(t, '/');
  }

  /** A title holding an invalid character keeps it: the values go into the
      template raw, and only the literal words `prefix`, `title` and `author`
      are replaced afterwards. */
  lemma InvalidCharSurvivesInTitle()
    ensures '/' in FilenameAsWritten(None, Some("/"), None, 2024, 1, 5)
  {
    var stamp := DateStamp(2024, 1, 5);
    var t := Template(None, Some("/"), stamp);
    DigitsOnlyTemplateKept(stamp, "/");
    assert t[|t| - 1] == '/';
    var name := Finish(t);
    SlashVisible(t);
    assert '/' in Visible(name) by {
      if Visible(name) != Visible(t) {
        assert Visible(name) == Visible(t) + ".ipuz";
      }
    }
    VisibleChars(name, '/');
  }

  /** With only a title, a stamp of digits and a title free of the tokens'
      first letters, the token loop leaves the template as it is. */
  lemma DigitsOnlyTemplateKept(stamp: string, title: string)
    requires forall i :: 0 <= i < |stamp| ==> IsDigit(stamp[i])
    requires 'p' !in title && 't' !in title && 'a' !in title
    ensures ApplyTokens(Template(None, Some(title), stamp), Tokens(None, Some(title), None))
         == Template(None, Some(title), stamp)
  {
    var t := Template(None, Some(title), stamp);
    assert t == " - " + stamp + " - " + title;
    assert 'p' !in stamp && 't' !in stamp && 'a' !in stamp;
    ApplyTokensAbsent(t, Tokens(None, Some(title), None));
  }

  /** No invalid character occurs in `s`. */
  predicate Clean(s: string)
  {
    forall c :: c in s ==> c !in InvalidChars
  }

  lemma InvalidCharIsVisible(c: char)
    requires c in InvalidChars
    ensures !IsSpace(c) && c !in ".ipuz"
  {
  }

  /** Normalising whitespace and adding the extension bring in no invalid
      character. */
  lemma FinishKeepsClean(t: string)
    requires Clean(t)
    ensures Clean(Finish(t))
  {
    var name := Finish(t);
    forall c | c in name ensures c !in InvalidChars {
      if c in InvalidChars {
        InvalidCharIsVisible(c);
        VisibleChars(name, c);
        assert c in Visible(t) by {
          if Visible(name) != Visible(t) {
            assert Visible(name) == Visible(t) + ".ipuz";
          }
        }
        VisibleChars(t, c);
        assert false;
      }
    }
  }

  /** Sanitised values, the separators and the digits of the date make a
      clean template. */
  lemma TemplateClean(p: string, stamp: string, q: string)
    requires Clean(p) && Clean(q)
    requires forall i :: 0 <= i < |stamp| ==> IsDigit(stamp[i])
    ensures Clean(p + " - " + stamp + " - " + q)
  {
    assert Clean(stamp) by {
      forall c | c in stamp ensures c !in InvalidChars {
        var i :| 0 <= i < |stamp| && stamp[i] == c;
        assert IsDigit(stamp[i]);
      }
    }
    assert Clean(" - ");
  }

  lemma WithoutInvalidIsClean(s: string)
    ensures Clean(Without(s, InvalidChars))
  {
    var r := Without(s, InvalidChars);
    forall c | c in r ensures c !in InvalidChars {
      var i :| 0 <= i < |r| && r[i] == c;
    }
  }

  /** The name with the values sanitised before they go into the template. */
  function SanitisedFilename(outletPrefix: Option<string>, title: Option<string>,
                             year: nat, month: nat, day: nat): (name: string)
    requires ValidDate(year, month, day)
    ensures Clean(name)
    ensures EndsWith(name, ".ipuz") && Tidy(name)
  {
    var p := Without(OrEmpty(outletPrefix), InvalidChars);
    var q := Without(OrEmpty(title), InvalidChars);
    var t := p + " - " + DateStamp(year, month, day) + " - " + q;
    WithoutInvalidIsClean(OrEmpty(outletPrefix));
    WithoutInvalidIsClean(OrEmpty(title));
    TemplateClean(p, DateStamp(year, month, day), q);
    FinishKeepsClean(t);
    Finish(t)
  }
}
