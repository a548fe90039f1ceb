/**
 * The string and column rules of the Alpha Vantage adapter
 * (providers/alpha_vantage.py): which output size a period asks for, how a
 * London ticker is rewritten for the service and for the fallback request,
 * and how a returned frame's columns are title-cased, selected in a fixed
 * order, renamed to the standard OHLCV names and given a Date column.
 */
module AlphaVantage {
  import opened Options
  import opened Keyed

  /**
   * The periods for which the full history is requested; any other
   * period asks for the compact (latest 100 points) series.
   */
  const FullPeriods: seq<string> := ["1y", "2y", "5y", "10y", "max"]

  function PeriodToOutputsize(period: string): (r: string)
    ensures r == "full" || r == "compact"
    ensures r == "full" <==> period == "1y" || period == "2y" || period == "5y" || period == "10y" || period == "max"
  {
    if period in FullPeriods then "full" else "compact"
  }

  /** Periods of a year or more fetch the full history; shorter ones and unknown ones the compact series. */
  lemma OutputsizeExamples()
    ensures PeriodToOutputsize("1y") == "full" && PeriodToOutputsize("max") == "full"
    ensures PeriodToOutputsize("6mo") == "compact" && PeriodToOutputsize("") == "compact"
    ensures PeriodToOutputsize("1Y") == "compact"
  {
  }

  predicate StartsWith(s: string, p: string)
  {
    |p| <= |s| && s[..|p|] == p
  }

  /** `p` occurs in `s` at position `i`. */
  predicate OccursAt(s: string, p: string, i: int)
  {
    0 <= i && i + |p| <= |s| && s[i..i + |p|] == p
  }

  lemma OccursShift(s: string, p: string, i: int)
    requires |s| > 0 && i >= 0
    ensures OccursAt(s, p, i + 1) <==> OccursAt(s[1..], p, i)
  {
    if 0 <= i && i + 1 + |p| <= |s| {
      var a, b := s[i + 1..i + 1 + |p|], s[1..][i..i + |p|];
      assert |a| == |b|;
      forall k | 0 <= k < |a| ensures a[k] == b[k] {
        assert a[k] == s[i + 1 + k] && b[k] == s[1..][i + k];
      }
      assert a == b;
    }
  }

  /** Python's `p in s` on strings. */
  function Contains(s: string, p: string): (r: bool)
    ensures r <==> exists i :: OccursAt(s, p, i)
    decreases |s|
  {
    if StartsWith(s, p) then
      assert OccursAt(s, p, 0);
      true
    else if |s| == 0 then
      assert forall i :: !OccursAt(s, p, i);
      false
    else
      var r := Contains(s[1..], p);
      assert r <==> exists i :: OccursAt(s, p, i) by {
        if r {
          var j :| OccursAt(s[1..], p, j);
          OccursShift(s, p, j);
        }
        if exists i :: OccursAt(s, p, i) {
          var i :| OccursAt(s, p, i);
          assert i != 0;
          OccursShift(s, p, i - 1);
        }
      }
      r
  }

  /**
   * Python's `s.replace(pat, repl)`: every occurrence of `pat`, scanning from
   * the left without overlaps, is replaced by `repl`.
   */
  function Replace(s: string, pat: string, repl: string): (r: string)
    requires |pat| > 0
    ensures |repl| <= |pat| ==> |r| <= |s|
    ensures |repl| >= |pat| ==> |r| >= |s|
    decreases |s|
  {
    if |s| == 0 then []
    else if StartsWith(s, pat) then repl + Replace(s[|pat|..], pat, repl)
    else [s[0]] + Replace(s[1..], pat, repl)
  }

  /** A string without an occurrence of `pat` is left unchanged, and replacing a pattern by itself changes nothing. */
  lemma {:induction false} ReplaceIdentity(s: string, pat: string, repl: string)
    requires |pat| > 0
    ensures !Contains(s, pat) ==> Replace(s, pat, repl) == s
    ensures Replace(s, pat, pat) == s
    decreases |s|
  {
    if |s| > 0 {
      if StartsWith(s, pat) {
        ReplaceIdentity(s[|pat|..], pat, repl);
        assert OccursAt(s, pat, 0);
        assert s == pat + s[|pat|..];
      } else {
        ReplaceIdentity(s[1..], pat, repl);
        assert s == [s[0]] + s[1..];
        assert Contains(s, pat) == Contains(s[1..], pat);
      }
    }
  }

  /**
   * The first occurrence of `pat` is replaced and the scan goes on after it:
   * with `ReplaceIdentity`, this pins the every-occurrence rule of `str.replace`.
   */
  lemma {:induction false} ReplaceFirstOccurrence(a: string, pat: string, b: string, repl: string)
    requires |pat| > 0
    requires forall i :: 0 <= i < |a| ==> !OccursAt(a + pat + b, pat, i)
    ensures Replace(a + pat + b, pat, repl) == a + repl + Replace(b, pat, repl)
    decreases |a|
  {
    var s := a + pat + b;
    if |a| == 0 {
      assert s == pat + b && StartsWith(s, pat) && s[|pat|..] == b;
    } else {
      assert !StartsWith(s, pat) by { assert !OccursAt(s, pat, 0); }
      assert s[1..] == a[1..] + pat + b;
      forall i | 0 <= i < |a[1..]| ensures !OccursAt(a[1..] + pat + b, pat, i) {
        OccursShift(s, pat, i);
      }
      ReplaceFirstOccurrence(a[1..], pat, b, repl);
      assert a == [a[0]] + a[1..];
    }
  }

  /** The symbol sent to the service: every ".L" becomes ".LSE", if there is one. */
  function AvSymbol(ticker: string): (r: string)
    ensures Replace(r, ".LSE", ".L") == ticker
    ensures |r| >= |ticker|
  {
    ReplaceIdentity(ticker, ".L", ".LSE");
    ReplaceIdentity(ticker, ".L", ".L");
    LseReplaced(ticker, ".L");
    if Contains(ticker, ".L") then Replace(ticker, ".L", ".LSE") else ticker
  }

  /** The symbol of the fallback request: the ticker with every ".L" removed. */
  function FallbackSymbol(ticker: string): (r: string)
    ensures r == Replace(Replace(ticker, ".L", ".LSE"), ".LSE", "")
    ensures |r| <= |ticker|
  {
    LseReplaced(ticker, "");
    Replace(ticker, ".L", "")
  }

  /** The `in` guard changes nothing: the service symbol is always the full replacement. */
  lemma AvSymbolIsReplace(ticker: string)
    ensures AvSymbol(ticker) == Replace(ticker, ".L", ".LSE")
  {
    ReplaceIdentity(ticker, ".L", ".LSE");
  }

  /** Rewriting ".L" to ".LSE" keeps the first character. */
  lemma ReplaceLseHead(t: string)
    requires |t| > 0
    ensures |Replace(t, ".L", ".LSE")| > 0 && Replace(t, ".L", ".LSE")[0] == t[0]
  {
  }

  /**
   * Every ".LSE" in the service symbol comes from a ".L" of the ticker, so
   * replacing ".LSE" in it by `x` is replacing ".L" in the ticker by `x`.
   */
  lemma {:induction false} LseReplaced(s: string, x: string)
    ensures Replace(Replace(s, ".L", ".LSE"), ".LSE", x) == Replace(s, ".L", x)
    decreases |s|
  {
    if |s| > 0 {
      var r := Replace(s, ".L", ".LSE");
      if StartsWith(s, ".L") {
        var rest := Replace(s[2..], ".L", ".LSE");
        assert r == ".LSE" + rest;
        assert StartsWith(r, ".LSE");
        assert r[4..] == rest;
        LseReplaced(s[2..], x);
      } else {
        var rest := Replace(s[1..], ".L", ".LSE");
        assert r == [s[0]] + rest;
        assert !StartsWith(r, ".LSE") by {
          if s[0] == '.' && |rest| > 0 {
            ReplaceLseHead(s[1..]);
            assert rest[0] == s[1] && s[1] != 'L';
          }
        }
        assert r[1..] == rest;
        LseReplaced(s[1..], x);
      }
    }
  }

  /**
   * The service symbol maps back to the ticker by turning ".LSE" into ".L",
   * and the fallback symbol is the service symbol with ".LSE" removed.
   */
  lemma SymbolRewrites(ticker: string)
    ensures Replace(AvSymbol(ticker), ".LSE", ".L") == ticker
    ensures Replace(AvSymbol(ticker), ".LSE", "") == FallbackSymbol(ticker)
  {
    AvSymbolIsReplace(ticker);
    LseReplaced(ticker, ".L");
    LseReplaced(ticker, "");
    ReplaceIdentity(ticker, ".L", ".L");
  }

  /** A London ticker `BASE.L` whose base has no dot becomes `BASE.LSE` for the service and `BASE` for the fallback. */
  lemma {:induction false} LondonTicker(base: string)
    requires forall i :: 0 <= i < |base| ==> base[i] != '.'
    ensures Replace(base + ".L", ".L", ".LSE") == base + ".LSE"
    ensures FallbackSymbol(base + ".L") == base
    decreases |base|
  {
    if |base| > 0 {
      assert (base + ".L")[1..] == base[1..] + ".L";
      LondonTicker(base[1..]);
    } else {
      assert base + ".L" == ".L";
    }
  }

  /** "BARC.L" is sent as "BARC.LSE" and retried as "BARC". */
  lemma LondonExample()
    ensures AvSymbol("BARC.L") == "BARC.LSE" && FallbackSymbol("BARC.L") == "BARC"
  {
    LondonTicker("BARC");
    assert "BARC" + ".L" == "BARC.L" && "BARC" + ".LSE" == "BARC.LSE";
    AvSymbolIsReplace("BARC.L");
  }

  /** A ticker without ".L" is sent as it is. */
  lemma OtherTickerExamples()
    ensures AvSymbol("AAPL") == "AAPL"
  {
    assert !Contains("AAPL", ".L") by {
      forall i ensures !OccursAt("AAPL", ".L", i) {
        if 0 <= i && i + 2 <= 4 {
          assert "AAPL"[i..i + 2][0] == "AAPL"[i] != '.';
        }
      }
    }
  }

  /** A ".L" inside the ticker is rewritten too, not only a trailing one. */
  lemma InnerLondonExample()
    ensures AvSymbol("X.LA") == "X.LSEA"
  {
    AvSymbolIsReplace("X.LA");
    assert "X.LA"[1..] == ".LA" && StartsWith(".LA", ".L") && ".LA"[2..] == "A";
  }

  predicate IsUpper(c: char) { 'A' <= c <= 'Z' }

  predicate IsLower(c: char) { 'a' <= c <= 'z' }

  /** The cased characters: only ASCII letters are modelled. */
  predicate IsCased(c: char) { IsUpper(c) || IsLower(c) }

  function LowerChar(c: char): (d: char)
    ensures IsCased(d) <==> IsCased(c)
    ensures !IsCased(c) ==> d == c
    ensures IsCased(c) ==> IsLower(d)
  {
    if IsUpper(c) then (c as int + 32) as char else c
  }

  function UpperChar(c: char): (d: char)
    ensures IsCased(d) <==> IsCased(c)
    ensures !IsCased(c) ==> d == c
    ensures IsCased(c) ==> IsUpper(d)
  {
    if IsLower(c) then (c as int - 32) as char else c
  }

  /** Python's `s.lower()`. */
  function Lower(s: string): (r: string)
    ensures |r| == |s| && forall i :: 0 <= i < |s| ==> r[i] == LowerChar(s[i])
  {
    if |s| == 0 then [] else [LowerChar(s[0])] + Lower(s[1..])
  }

  /** Whether the character before position `i` is cased; `afterCased` stands for the one before the string. */
  predicate PrevCased(s: string, i: int, afterCased: bool)
    requires 0 <= i < |s|
  {
    if i == 0 then afterCased else IsCased(s[i - 1])
  }

  /**
   * Python's `s.title()`: a cased character is upper-cased when it starts a
   * word (the previous character is not cased) and lower-cased otherwise;
   * every other character is kept.
   */
  function TitleFrom(s: string, afterCased: bool): (r: string)
    ensures |r| == |s|
  {
    if |s| == 0 then []
    else if IsCased(s[0]) then
      [if afterCased then LowerChar(s[0]) else UpperChar(s[0])] + TitleFrom(s[1..], true)
    else [s[0]] + TitleFrom(s[1..], false)
  }

  function Title(s: string): (r: string)
    ensures |r| == |s|
  {
    TitleFrom(s, false)
  }

  /**
   * Character by character: a character that is not cased is kept, a cased
   * one is upper-cased when it starts a word and lower-cased otherwise.
   */
  lemma {:induction false} TitleFromChars(s: string, afterCased: bool)
    ensures forall i :: 0 <= i < |s| && !IsCased(s[i]) ==> TitleFrom(s, afterCased)[i] == s[i]
    ensures forall i :: 0 <= i < |s| && IsCased(s[i]) && !PrevCased(s, i, afterCased) ==>
      TitleFrom(s, afterCased)[i] == UpperChar(s[i])
    ensures forall i :: 0 <= i < |s| && IsCased(s[i]) && PrevCased(s, i, afterCased) ==>
      TitleFrom(s, afterCased)[i] == LowerChar(s[i])
    decreases |s|
  {
    if |s| > 0 {
      var t, rest := TitleFrom(s, afterCased), TitleFrom(s[1..], IsCased(s[0]));
      TitleFromChars(s[1..], IsCased(s[0]));
      assert t[1..] == rest;
      forall i | 1 <= i < |s|
        ensures t[i] == rest[i - 1] && s[i] == s[1..][i - 1]
        ensures PrevCased(s, i, afterCased) == PrevCased(s[1..], i - 1, IsCased(s[0]))
      {
      }
    }
  }

  /** Title-casing works left to right: the second part only depends on whether the first ends cased. */
  lemma {:induction false} TitleFromConcat(a: string, b: string, afterCased: bool)
    ensures TitleFrom(a + b, afterCased) ==
      TitleFrom(a, afterCased) + TitleFrom(b, if |a| == 0 then afterCased else IsCased(a[|a| - 1]))
    decreases |a|
  {
    if |a| > 0 {
      assert (a + b)[1..] == a[1..] + b;
      TitleFromConcat(a[1..], b, IsCased(a[0]));
    } else {
      assert a + b == b;
    }
  }

  /** Lower-case letters that follow a cased character are kept. */
  lemma {:induction false} TitleLowerRun(w: string)
    requires forall i :: 0 <= i < |w| ==> IsLower(w[i])
    ensures TitleFrom(w, true) == w
    decreases |w|
  {
    if |w| > 0 {
      TitleLowerRun(w[1..]);
      assert w == [w[0]] + w[1..];
    }
  }

  /** A lower-case word is title-cased by upper-casing its first letter. */
  lemma TitleLowerWord(w: string)
    requires |w| > 0 && forall i :: 0 <= i < |w| ==> IsLower(w[i])
    ensures TitleFrom(w, false) == [UpperChar(w[0])] + w[1..]
  {
    TitleLowerRun(w[1..]);
    assert w == [w[0]] + w[1..];
  }

  /** Two lower-case words separated by a space are title-cased word by word. */
  lemma TitleTwoWords(a: string, b: string)
    requires |a| > 0 && forall i :: 0 <= i < |a| ==> IsLower(a[i])
    requires |b| > 0 && forall i :: 0 <= i < |b| ==> IsLower(b[i])
    ensures Title(a + " " + b) == TitleFrom(a, false) + " " + TitleFrom(b, false)
  {
    var ta, tb := TitleFrom(a, false), TitleFrom(b, false);
    assert TitleFrom(" " + b, true) == " " + tb by {
      TitleFromConcat(" ", b, true);
      assert TitleFrom(" ", true) == " ";
    }
    assert Title(a + " " + b) == ta + (" " + tb) by {
      assert a + " " + b == a + (" " + b);
      assert IsCased(a[|a| - 1]);
      TitleFromConcat(a, " " + b, false);
    }
    assert ta + (" " + tb) == ta + " " + tb;
  }

  /** Two lower-case words separated by a space each get a capital first letter. */
  lemma TitleLowerWords(a: string, b: string)
    requires |a| > 0 && forall i :: 0 <= i < |a| ==> IsLower(a[i])
    requires |b| > 0 && forall i :: 0 <= i < |b| ==> IsLower(b[i])
    ensures Title(a + " " + b) == [UpperChar(a[0])] + a[1..] + " " + [UpperChar(b[0])] + b[1..]
  {
    TitleLowerWord(a);
    TitleLowerWord(b);
    TitleTwoWords(a, b);
  }

  /** The service's labels title-case to the adapter's names. */
  lemma TitleExamples()
    ensures Title("close") == "Close"
  {
    TitleLowerWord("close");
  }

  /** The adjusted close label becomes the name that the rename maps to "Close". */
  lemma TitleAdjustedClose()
    ensures Title("adjusted close") == "Adjusted Close"
  {
    var a, b := "adjusted", "close";
    TitleLowerWords(a, b);
    assert [UpperChar(a[0])] + a[1..] + " " + [UpperChar(b[0])] + b[1..] == "Adjusted Close" by {
      assert UpperChar(a[0]) == 'A' && UpperChar(b[0]) == 'C';
      assert a[1..] == "djusted" && b[1..] == "lose";
    }
    assert a + " " + b == "adjusted close";
  }

  lemma {:induction false} TitleFromSpec(s: string, afterCased: bool)
    ensures TitleFrom(TitleFrom(s, afterCased), afterCased) == TitleFrom(s, afterCased)
    ensures Lower(TitleFrom(s, afterCased)) == Lower(s)
    decreases |s|
  {
    if |s| > 0 {
      var t := TitleFrom(s, afterCased);
      TitleFromSpec(s[1..], IsCased(s[0]));
      assert t[1..] == TitleFrom(s[1..], IsCased(s[0]));
      assert IsCased(t[0]) == IsCased(s[0]);
      assert LowerChar(t[0]) == LowerChar(s[0]) by {
        if IsLower(s[0]) && !afterCased {
          assert UpperChar(s[0]) as int == s[0] as int - 32;
        } else if IsUpper(s[0]) && afterCased {
          assert LowerChar(s[0]) as int == s[0] as int + 32;
        }
      }
      if IsCased(s[0]) && !afterCased && IsLower(s[0]) {
        assert UpperChar(UpperChar(s[0])) == UpperChar(s[0]);
      }
      assert Lower(t) == [LowerChar(t[0])] + Lower(t[1..]);
      assert Lower(s) == [LowerChar(s[0])] + Lower(s[1..]);
    }
  }

  /** Title-casing is idempotent and changes no letter other than in case. */
  lemma TitleSpec(s: string)
    ensures Title(Title(s)) == Title(s)
    ensures Lower(Title(s)) == Lower(s)
    ensures |Title(s)| == |s|
    ensures forall i :: 0 <= i < |s| && !IsCased(s[i]) ==> Title(s)[i] == s[i]
    ensures forall i :: 0 <= i < |s| && IsCased(s[i]) && (i == 0 || !IsCased(s[i - 1])) ==> Title(s)[i] == UpperChar(s[i])
    ensures forall i :: 0 <= i < |s| && IsCased(s[i]) && i > 0 && IsCased(s[i - 1]) ==> Title(s)[i] == LowerChar(s[i])
  {
    TitleFromSpec(s, false);
    TitleFromChars(s, false);
  }

  /** The column names the adapter knows, in the order they are selected. */
  const MappingKeys: seq<string> := ["Open", "High", "Low", "Close", "Adjusted Close", "Volume"]

  /** `column_mapping`: "Adjusted Close" becomes "Close", the other known names stay. */
  function Mapped(name: string): (r: string)
    ensures r == "Close" <==> name == "Close" || name == "Adjusted Close"
    ensures name != "Adjusted Close" ==> r == name
  {
    if name == "Adjusted Close" then "Close" else name
  }

  /** `df.columns = [col.title() for col in df.columns]`. */
  function TitleColumns<T(!new)>(cols: seq<(string, T)>): (r: seq<(string, T)>)
    ensures |r| == |cols| && forall i :: 0 <= i < |cols| ==> r[i] == (Title(cols[i].0), cols[i].1)
  {
    if |cols| == 0 then [] else [(Title(cols[0].0), cols[0].1)] + TitleColumns(cols[1..])
  }

  /** Every column labelled `name`, in frame order: what `df[[name]]` selects. */
  function ColumnsNamed<T(!new)>(cols: seq<(string, T)>, name: string): (r: seq<(string, T)>)
    ensures forall x :: x in r <==> x in cols && x.0 == name
    ensures |r| > 0 <==> name in Keys(cols)
  {
    if |cols| == 0 then []
    else (if cols[0].0 == name then [cols[0]] else []) + ColumnsNamed(cols[1..], name)
  }

  /** `df[[k for k in keys if k in df.columns]]`. */
  function SelectFrom<T(!new)>(keys: seq<string>, cols: seq<(string, T)>): (r: seq<(string, T)>)
    ensures forall x :: x in r ==> x in cols && x.0 in keys
  {
    if |keys| == 0 then []
    else (if keys[0] in Keys(cols) then ColumnsNamed(cols, keys[0]) else []) + SelectFrom(keys[1..], cols)
  }

  function Select<T(!new)>(cols: seq<(string, T)>): (r: seq<(string, T)>)
    ensures forall x :: x in r ==> x in cols && x.0 in MappingKeys
    ensures DistinctKeys(cols) ==> Keys(r) == FilterPresent(MappingKeys, Keys(cols))
  {
    SelectedLabels(MappingKeys, cols);
    SelectFrom(MappingKeys, cols)
  }

  /** `df.columns = [column_mapping[col] for col in df.columns]`. */
  function Rename<T(!new)>(cols: seq<(string, T)>): (r: seq<(string, T)>)
    ensures |r| == |cols| && forall i :: 0 <= i < |cols| ==> r[i] == (Mapped(cols[i].0), cols[i].1)
  {
    if |cols| == 0 then [] else [(Mapped(cols[0].0), cols[0].1)] + Rename(cols[1..])
  }

  /** Lines 78-93: title-case the labels, select the known columns in the fixed order, rename them. */
  function StandardColumns<T(!new)>(cols: seq<(string, T)>): (r: seq<(string, T)>)
    ensures forall k :: k in Keys(r) ==>
      k == "Open" || k == "High" || k == "Low" || k == "Close" || k == "Volume"
  {
    RenamedLabels(Select(TitleColumns(cols)));
    Rename(Select(TitleColumns(cols)))
  }

  /** Renaming columns with known labels leaves only the five standard labels. */
  lemma RenamedLabels<T(!new)>(sel: seq<(string, T)>)
    requires forall x :: x in sel ==> x.0 in MappingKeys
    ensures forall k :: k in Keys(Rename(sel)) ==>
      k == "Open" || k == "High" || k == "Low" || k == "Close" || k == "Volume"
  {
    forall k | k in Keys(Rename(sel))
      ensures k == "Open" || k == "High" || k == "Low" || k == "Close" || k == "Volume"
    {
      var i :| 0 <= i < |sel| && Keys(Rename(sel))[i] == k;
      assert sel[i] in sel;
      MappedKnown(sel[i].0);
    }
  }

  /** The labels among `keys` that occur in `names`, in the order of `keys`. */
  function FilterPresent(keys: seq<string>, names: seq<string>): (r: seq<string>)
    ensures forall k :: k in r <==> k in keys && k in names
  {
    if |keys| == 0 then []
    else (if keys[0] in names then [keys[0]] else []) + FilterPresent(keys[1..], names)
  }

  /**
   * For a frame without duplicated labels, selection yields one column per
   * key present in the frame, labelled in key order.
   */
  lemma {:induction false} SelectedLabels<T(!new)>(keys: seq<string>, cols: seq<(string, T)>)
    ensures DistinctKeys(cols) ==> Keys(SelectFrom(keys, cols)) == FilterPresent(keys, Keys(cols))
    decreases |keys|
  {
    if |keys| > 0 && DistinctKeys(cols) {
      var head := if keys[0] in Keys(cols) then ColumnsNamed(cols, keys[0]) else [];
      var tail := SelectFrom(keys[1..], cols);
      assert SelectFrom(keys, cols) == head + tail;
      SelectedLabels(keys[1..], cols);
      ColumnsNamedDistinct(cols, keys[0]);
      assert Keys(head) == if keys[0] in Keys(cols) then [keys[0]] else [];
      assert Keys(head + tail) == Keys(head) + Keys(tail);
    }
  }

  lemma {:induction false} SelectFromElements<T(!new)>(keys: seq<string>, cols: seq<(string, T)>)
    ensures forall x :: x in SelectFrom(keys, cols) <==> x in cols && x.0 in keys
    decreases |keys|
  {
    if |keys| > 0 {
      SelectFromElements(keys[1..], cols);
      assert forall k :: k in keys <==> k == keys[0] || k in keys[1..];
      forall x | x in cols && x.0 == keys[0] ensures keys[0] in Keys(cols) {
        var i :| 0 <= i < |cols| && cols[i] == x;
        assert Keys(cols)[i] == keys[0];
      }
    }
  }

  /**
   * After selection and renaming every column is one of the frame's own
   * columns whose title-cased label is known, and every label is one of
   * Open, High, Low, Close and Volume.
   */
  lemma StandardColumnsSpec<T(!new)>(cols: seq<(string, T)>)
    ensures forall x :: x in Select(TitleColumns(cols)) <==> x in TitleColumns(cols) && x.0 in MappingKeys
    ensures forall k :: k in Keys(StandardColumns(cols)) ==>
      k == "Open" || k == "High" || k == "Low" || k == "Close" || k == "Volume"
  {
    var sel := Select(TitleColumns(cols));
    SelectFromElements(MappingKeys, TitleColumns(cols));
    forall k | k in Keys(StandardColumns(cols))
      ensures k == "Open" || k == "High" || k == "Low" || k == "Close" || k == "Volume"
    {
      var i :| 0 <= i < |sel| && Keys(Rename(sel))[i] == k;
      assert sel[i] in sel;
      MappedKnown(sel[i].0);
    }
  }

  /** Every known label is renamed to one of the five standard labels. */
  lemma MappedKnown(name: string)
    requires name in MappingKeys
    ensures var k := Mapped(name); k == "Open" || k == "High" || k == "Low" || k == "Close" || k == "Volume"
  {
  }

  /** For a frame without duplicated labels, a known label selects its one column. */
  lemma {:induction false} ColumnsNamedDistinct<T(!new)>(cols: seq<(string, T)>, name: string)
    requires DistinctKeys(cols)
    ensures ColumnsNamed(cols, name) == match Get(cols, name) case None => [] case Some(v) => [(name, v)]
    decreases |cols|
  {
    if |cols| > 0 {
      DistinctTail(cols);
      ColumnsNamedDistinct(cols[1..], name);
      if cols[0].0 == name {
        assert ColumnsNamed(cols[1..], name) == [];
      }
    }
  }

  lemma {:induction false} SelectFromDistinct<T(!new)>(keys: seq<string>, a: seq<(string, T)>, b: seq<(string, T)>)
    requires DistinctKeys(a) && DistinctKeys(b)
    requires forall k :: Get(a, k) == Get(b, k)
    ensures SelectFrom(keys, a) == SelectFrom(keys, b)
    decreases |keys|
  {
    if |keys| > 0 {
      ColumnsNamedDistinct(a, keys[0]);
      ColumnsNamedDistinct(b, keys[0]);
      assert keys[0] in Keys(a) <==> keys[0] in Keys(b) by {
        assert Get(a, keys[0]) == Get(b, keys[0]);
      }
      SelectFromDistinct(keys[1..], a, b);
    }
  }

  /**
   * Selection depends on which columns the frame has, not on their order:
   * two frames without duplicated labels holding the same columns select
   * the same columns in the same order.
   */
  lemma SelectOrderIndependent<T(!new)>(a: seq<(string, T)>, b: seq<(string, T)>)
    requires DistinctKeys(a) && DistinctKeys(b)
    requires forall k :: Get(a, k) == Get(b, k)
    ensures Select(a) == Select(b)
  {
    SelectFromDistinct(MappingKeys, a, b);
  }

  lemma {:induction false} RenameConcat<T(!new)>(a: seq<(string, T)>, b: seq<(string, T)>)
    ensures Rename(a + b) == Rename(a) + Rename(b)
    decreases |a|
  {
    if |a| > 0 {
      assert (a + b)[1..] == a[1..] + b;
      RenameConcat(a[1..], b);
    } else {
      assert a + b == b;
    }
  }

  /** Renaming the columns labelled `name`: they are all found under `Mapped(name)`, first one first. */
  lemma {:induction false} RenamedColumnsNamed<T(!new)>(cols: seq<(string, T)>, name: string, k: string)
    ensures Get(Rename(ColumnsNamed(cols, name)), k) == if k == Mapped(name) then Get(cols, name) else None
    decreases |cols|
  {
    if |cols| > 0 {
      RenamedColumnsNamed(cols[1..], name, k);
      if cols[0].0 == name {
        assert Rename(ColumnsNamed(cols, name)) == [(Mapped(name), cols[0].1)] + Rename(ColumnsNamed(cols[1..], name));
      } else {
        assert ColumnsNamed(cols, name) == ColumnsNamed(cols[1..], name);
      }
    }
  }

  /** The first column among `keys`, in key order, that is present and renamed to `k`. */
  function FirstMapped<T(!new)>(keys: seq<string>, cols: seq<(string, T)>, k: string): Option<T>
  {
    if |keys| == 0 then None
    else if Mapped(keys[0]) == k && keys[0] in Keys(cols) then Get(cols, keys[0])
    else FirstMapped(keys[1..], cols, k)
  }

  /** Reading label `k` after selecting and renaming finds the first selected column renamed to `k`. */
  lemma {:induction false} GetRenamedSelectFrom<T(!new)>(keys: seq<string>, cols: seq<(string, T)>, k: string)
    ensures Get(Rename(SelectFrom(keys, cols)), k) == FirstMapped(keys, cols, k)
    decreases |keys|
  {
    if |keys| > 0 {
      var head := if keys[0] in Keys(cols) then ColumnsNamed(cols, keys[0]) else [];
      var tail := SelectFrom(keys[1..], cols);
      assert SelectFrom(keys, cols) == head + tail;
      RenameConcat(head, tail);
      GetConcat(Rename(head), Rename(tail), k);
      GetRenamedSelectFrom(keys[1..], cols, k);
      RenamedColumnsNamed(cols, keys[0], k);
    }
  }

  /**
   * When a frame has both Close and Adjusted Close, both become "Close" with
   * the raw close first, so a keep-first de-duplication keeps the raw close;
   * the adjusted close is used only when there is no raw close.
   */
  lemma CloseAfterRename<T(!new)>(cols: seq<(string, T)>)
    ensures Get(KeepFirst(Rename(Select(cols))), "Close") ==
      if "Close" in Keys(cols) then Get(cols, "Close") else Get(cols, "Adjusted Close")
  {
    var d := Rename(Select(cols));
    KeepFirstSpec(d);
    assert Get(KeepFirst(d), "Close") == Get(d, "Close");
    GetRenamedSelectFrom(MappingKeys, cols, "Close");
    CloseFirstMapped(cols);
  }

  /** Open, High and Low are never renamed to "Close"; Close comes before Adjusted Close. */
  lemma CloseFirstMapped<T(!new)>(cols: seq<(string, T)>)
    ensures FirstMapped(MappingKeys, cols, "Close") ==
      if "Close" in Keys(cols) then Get(cols, "Close") else Get(cols, "Adjusted Close")
  {
    var tail := ["Close", "Adjusted Close", "Volume"];
    assert MappingKeys == ["Open", "High", "Low"] + tail;
    FirstMappedSkip(["Open", "High", "Low"], tail, cols, "Close");
    FirstMappedClose(cols);
  }

  /** The last three known labels: Close if present, else Adjusted Close, and Volume never. */
  lemma FirstMappedClose<T(!new)>(cols: seq<(string, T)>)
    ensures FirstMapped(["Close", "Adjusted Close", "Volume"], cols, "Close") ==
      if "Close" in Keys(cols) then Get(cols, "Close") else Get(cols, "Adjusted Close")
  {
    var tail := ["Close", "Adjusted Close", "Volume"];
    assert tail[1..] == ["Adjusted Close", "Volume"];
    assert tail[1..][1..] == ["Volume"];
    assert FirstMapped(["Volume"], cols, "Close") == None by {
      assert ["Volume"][1..] == [];
    }
    assert FirstMapped(tail[1..], cols, "Close") == Get(cols, "Adjusted Close");
  }

  /** Keys that are not renamed to `k` can be skipped. */
  lemma {:induction false} FirstMappedSkip<T(!new)>(skipped: seq<string>, rest: seq<string>, cols: seq<(string, T)>, k: string)
    requires forall i :: 0 <= i < |skipped| ==> Mapped(skipped[i]) != k
    ensures FirstMapped(skipped + rest, cols, k) == FirstMapped(rest, cols, k)
    decreases |skipped|
  {
    if |skipped| > 0 {
      assert (skipped + rest)[1..] == skipped[1..] + rest;
      FirstMappedSkip(skipped[1..], rest, cols, k);
    } else {
      assert skipped + rest == rest;
    }
  }

  /** `df.rename(columns={pat: repl})`: every column labelled `pat` is relabelled. */
  function Relabel<T(!new)>(cols: seq<(string, T)>, pat: string, repl: string): (r: seq<(string, T)>)
    ensures |r| == |cols|
    ensures forall i :: 0 <= i < |cols| ==> r[i] == (if cols[i].0 == pat then repl else cols[i].0, cols[i].1)
  {
    if |cols| == 0 then []
    else [(if cols[0].0 == pat then repl else cols[0].0, cols[0].1)] + Relabel(cols[1..], pat, repl)
  }

  /**
   * Lines 97-101: when there is no Date column, the first column is renamed
   * to "Date" if its lower-cased name contains "date".
   */
  function DateRename<T(!new)>(cols: seq<(string, T)>): (r: seq<(string, T)>)
    ensures |r| == |cols| && forall i :: 0 <= i < |cols| ==> r[i].1 == cols[i].1
    ensures "Date" in Keys(cols) ==> r == cols
  {
    if "Date" !in Keys(cols) && |cols| > 0 && Contains(Lower(cols[0].0), "date") then
      Relabel(cols, cols[0].0, "Date")
    else cols
  }

  /**
   * The rename keeps every column and its values, and only relabels: the
   * frame has a Date column afterwards exactly when it had one before or
   * its first column's name contains "date" in any case; then that column
   * is first. Renaming again changes nothing.
   */
  lemma DateRenameSpec<T(!new)>(cols: seq<(string, T)>)
    ensures |DateRename(cols)| == |cols|
    ensures forall i :: 0 <= i < |cols| ==> DateRename(cols)[i].1 == cols[i].1
    ensures "Date" in Keys(DateRename(cols)) <==>
      "Date" in Keys(cols) || (|cols| > 0 && Contains(Lower(cols[0].0), "date"))
    ensures "Date" !in Keys(cols) && |cols| > 0 && Contains(Lower(cols[0].0), "date") ==>
      DateRename(cols)[0].0 == "Date"
    ensures "Date" in Keys(cols) || |cols| == 0 ==> DateRename(cols) == cols
    ensures DateRename(DateRename(cols)) == DateRename(cols)
  {
    var r := DateRename(cols);
    if "Date" !in Keys(cols) && |cols| > 0 && Contains(Lower(cols[0].0), "date") {
      assert Keys(r)[0] == "Date";
    }
  }

  /** The reset index column "date" becomes "Date". */
  lemma DateColumnRenamed()
    ensures DateRename([("date", 0.0), ("Close", 1.0)]) == [("Date", 0.0), ("Close", 1.0)]
  {
    assert Lower("date") == "date";
    assert OccursAt(Lower("date"), "date", 0);
  }

  /** A first column named "index" is left alone. */
  lemma IndexColumnKept()
    ensures DateRename([("index", 0.0), ("Close", 1.0)]) == [("index", 0.0), ("Close", 1.0)]
  {
    assert Lower("index") == "index";
    assert !Contains("index", "date") by {
      forall i ensures !OccursAt("index", "date", i) {
        if 0 <= i && i + 4 <= 5 {
          assert "index"[i..i + 4][0] == "index"[i] != 'd';
        }
      }
    }
  }
}
