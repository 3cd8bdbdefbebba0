/**
 * email_tool.py: the helpers the app's sending path relies on -- turning a
 * plain-text body into template HTML, looking up a column by candidate
 * names, and reading a cell of a row safely.
 *
 * A data frame is modelled by its column labels (`df.columns`, `None` for a
 * missing frame); a row by a map from label to cell, where a cell is either
 * missing (`pd.isna`) or the text `str(value)` gives.
 */
module EmailTool {
  import opened Wrappers
  import opened PyString

  // ---------------------------------------------------------------------------
  // prepare_email_body_for_template
  // ---------------------------------------------------------------------------

  /** `s` holds no two adjacent '*'. */
  predicate NoDoubleStar(s: string) {
    forall i :: 0 <= i < |s| - 1 ==> !(s[i] == '*' && s[i + 1] == '*')
  }

  /**
   * `prepare_email_body_for_template`: drop "**", turn "\r\n" into "\n",
   * then "\n\n" into "<br><br>" and every remaining "\n" into "<br>".
   */
  function PrepareEmailBody(bodyText: string): (r: string)
    ensures '\n' !in r
    ensures NoDoubleStar(r) && !Contains(r, "**")
  {
    var clean := Replace(bodyText, "**", "");
    var crlf := Replace(clean, "\r\n", "\n");
    var paragraphs := Replace(crlf, "\n\n", "<br><br>");
    RemovalLeavesNoDoubleStar(bodyText);
    ReplaceKeepsNoDoubleStar(clean, "\r\n", "\n");
    ReplaceKeepsNoDoubleStar(crlf, "\n\n", "<br><br>");
    ReplaceKeepsNoDoubleStar(paragraphs, "\n", "<br>");
    ReplaceCharRemoves(paragraphs, '\n', "<br>");
    NoDoubleStarNotContains(Replace(paragraphs, "\n", "<br>"));
    Replace(paragraphs, "\n", "<br>")
  }

  /** No adjacent stars means no "**" substring. */
  lemma {:induction false} NoDoubleStarNotContains(s: string)
    requires NoDoubleStar(s)
    ensures !Contains(s, "**")
    decreases |s|
  {
    if s != [] {
      assert NoDoubleStar(s[1..]) by {
        forall i | 0 <= i < |s[1..]| - 1
          ensures !(s[1..][i] == '*' && s[1..][i + 1] == '*')
        {
          assert s[1..][i] == s[i + 1] && s[1..][i + 1] == s[i + 2];
        }
      }
      NoDoubleStarNotContains(s[1..]);
      if |s| >= 2 {
        assert s[..2] == [s[0], s[1]];
      }
    }
  }

  /** A string that does not start the pattern is scanned past its first character. */
  lemma ReplaceSkipsHead(u: string, pat: string, rep: string)
    requires pat != [] && u != [] && u[0] != pat[0]
    ensures Replace(u, pat, rep) == [u[0]] + Replace(u[1..], pat, rep)
  {
    if |u| < |pat| {
      assert u == [u[0]] + u[1..];
    } else {
      assert u[..|pat|][0] == u[0];
    }
  }

  /** The output of a replacement begins with the input's first character or with the replacement's. */
  lemma ReplaceHead(u: string, pat: string, rep: string)
    requires pat != [] && u != [] && rep != []
    ensures Replace(u, pat, rep) != []
    ensures Replace(u, pat, rep)[0] == u[0] || Replace(u, pat, rep)[0] == rep[0]
  {
  }

  lemma NoDoubleStarConcat(a: string, b: string)
    requires NoDoubleStar(a) && NoDoubleStar(b)
    requires a == [] || b == [] || a[|a| - 1] != '*' || b[0] != '*'
    ensures NoDoubleStar(a + b)
  {
    var s := a + b;
    forall i | 0 <= i < |s| - 1
      ensures !(s[i] == '*' && s[i + 1] == '*')
    {
      if i + 1 < |a| {
        assert s[i] == a[i] && s[i + 1] == a[i + 1];
      } else if i >= |a| {
        assert s[i] == b[i - |a|] && s[i + 1] == b[i + 1 - |a|];
      }
    }
  }

  /** Removing "**" cannot leave two stars side by side: a lone star is followed by a non-star. */
  lemma {:induction false} RemovalLeavesNoDoubleStar(s: string)
    ensures NoDoubleStar(Replace(s, "**", ""))
    decreases |s|
  {
    if |s| >= 2 {
      if s[..2] == "**" {
        RemovalLeavesNoDoubleStar(s[2..]);
      } else {
        var u := s[1..];
        RemovalLeavesNoDoubleStar(u);
        var tail := Replace(u, "**", "");
        assert Replace(s, "**", "") == [s[0]] + tail;
        if s[0] == '*' {
          assert u[0] != '*' by {
            assert s[..2] == [s[0], s[1]];
          }
          ReplaceSkipsHead(u, "**", "");
          assert tail[0] == u[0];
        }
        NoDoubleStarConcat([s[0]], tail);
      }
    }
  }

  /** Replacing a star-free pattern by a non-empty star-free text keeps a star-pair-free string so. */
  lemma {:induction false} ReplaceKeepsNoDoubleStar(t: string, pat: string, rep: string)
    requires pat != [] && rep != [] && '*' !in pat && '*' !in rep
    requires NoDoubleStar(t)
    ensures NoDoubleStar(Replace(t, pat, rep))
    decreases |t|
  {
    if |t| >= |pat| {
      if t[..|pat|] == pat {
        var rest := t[|pat|..];
        assert NoDoubleStar(rest) by {
          forall i | 0 <= i < |rest| - 1
            ensures !(rest[i] == '*' && rest[i + 1] == '*')
          {
            assert rest[i] == t[i + |pat|] && rest[i + 1] == t[i + 1 + |pat|];
          }
        }
        ReplaceKeepsNoDoubleStar(rest, pat, rep);
        assert NoDoubleStar(rep);
        NoDoubleStarConcat(rep, Replace(rest, pat, rep));
      } else {
        var u := t[1..];
        assert NoDoubleStar(u) by {
          forall i | 0 <= i < |u| - 1
            ensures !(u[i] == '*' && u[i + 1] == '*')
          {
            assert u[i] == t[i + 1] && u[i + 1] == t[i + 2];
          }
        }
        ReplaceKeepsNoDoubleStar(u, pat, rep);
        var tail := Replace(u, pat, rep);
        if u != [] {
          ReplaceHead(u, pat, rep);
          assert t[0] == '*' ==> u[0] != '*' by {
            assert u[0] == t[1];
          }
        }
        NoDoubleStarConcat([t[0]], tail);
      }
    }
  }

  /** A text without `c` is left alone by replacing `c`. */
  lemma ReplaceAbsentChar(x: string, c: char, rep: string)
    requires c !in x
    ensures Replace(x, [c], rep) == x
  {
    if Contains(x, [c]) {
      ContainsAllChars(x, [c], 0);
    }
  }

  /** The step of `PairThenSingle` when the text starts with the doubled character. */
  lemma PairStep(s: string, c: char, rep: string)
    requires c !in rep && |s| >= 2 && s[..2] == [c, c]
    requires Replace(Replace(s[2..], [c, c], rep + rep), [c], rep) == Replace(s[2..], [c], rep)
    ensures Replace(Replace(s, [c, c], rep + rep), [c], rep) == Replace(s, [c], rep)
  {
    var pair, reps := [c, c], rep + rep;
    var rest := Replace(s[2..], pair, reps);
    var tail := Replace(s[2..], [c], rep);
    assert Replace(s, pair, reps) == reps + rest;
    assert Replace(reps + rest, [c], rep) == reps + tail by {
      ReplaceCharConcat(reps, rest, c, rep);
      assert c !in reps;
      ReplaceAbsentChar(reps, c, rep);
    }
    assert Replace(s, [c], rep) == rep + (rep + tail) by {
      assert s[0] == c && s[1] == c by {
        assert s[..2][0] == s[0] && s[..2][1] == s[1];
      }
      var u := s[1..];
      assert s[..1] == [c];
      assert u[..1] == [c];
      assert u[1..] == s[2..];
      assert Replace(u, [c], rep) == rep + tail;
    }
    ConcatAssoc(rep, rep, tail);
  }

  /** The step of `PairThenSingle` when the text does not start with the doubled character. */
  lemma SingleStep(s: string, c: char, rep: string)
    requires |s| >= 2 && s[..2] != [c, c]
    requires Replace(Replace(s[1..], [c, c], rep + rep), [c], rep) == Replace(s[1..], [c], rep)
    ensures Replace(Replace(s, [c, c], rep + rep), [c], rep) == Replace(s, [c], rep)
  {
    var pair, reps := [c, c], rep + rep;
    var rest := Replace(s[1..], pair, reps);
    assert Replace(s, pair, reps) == [s[0]] + rest;
    ReplaceCharConcat([s[0]], rest, c, rep);
    ReplaceCharConcat([s[0]], s[1..], c, rep);
    assert [s[0]] + s[1..] == s;
  }

  /** Replacing a doubled `c` by a doubled `rep` first changes nothing once every `c` becomes `rep`. */
  lemma {:induction false} PairThenSingle(s: string, c: char, rep: string)
    requires c !in rep
    ensures Replace(Replace(s, [c, c], rep + rep), [c], rep) == Replace(s, [c], rep)
    decreases |s|
  {
    if |s| >= 2 {
      if s[..2] == [c, c] {
        PairThenSingle(s[2..], c, rep);
        PairStep(s, c, rep);
      } else {
        PairThenSingle(s[1..], c, rep);
        SingleStep(s, c, rep);
      }
    }
  }

  /** Replacing "\n\n" by "<br><br>" first changes nothing once every "\n" becomes "<br>". */
  lemma ParagraphsThenLines(s: string)
    ensures Replace(Replace(s, "\n\n", "<br><br>"), "\n", "<br>") == Replace(s, "\n", "<br>")
  {
    var br := "<br>";
    PairThenSingle(s, '\n', br);
    assert br + br == "<br><br>";
  }

  /**
   * The output is the input with "**" removed, "\r\n" turned into "\n", and
   * then every "\n" replaced by "<br>": the pair rule for "\n\n" is the
   * single-newline rule applied twice.
   */
  lemma PrepareIsLineBreakSubstitution(bodyText: string)
    ensures PrepareEmailBody(bodyText)
         == Replace(Replace(Replace(bodyText, "**", ""), "\r\n", "\n"), "\n", "<br>")
  {
    ParagraphsThenLines(Replace(Replace(bodyText, "**", ""), "\r\n", "\n"));
  }

  /** Text with no "**" and no newline comes back unchanged. */
  lemma PlainTextUnchanged(bodyText: string)
    requires !Contains(bodyText, "**") && '\n' !in bodyText
    ensures PrepareEmailBody(bodyText) == bodyText
  {
    if Contains(bodyText, "\r\n") {
      ContainsAllChars(bodyText, "\r\n", 1);
    }
    if Contains(bodyText, "\n\n") {
      ContainsAllChars(bodyText, "\n\n", 0);
    }
    if Contains(bodyText, "\n") {
      ContainsAllChars(bodyText, "\n", 0);
    }
  }

  // ---------------------------------------------------------------------------
  // find_column, and the same pick logic in normalize_crm_columns
  // ---------------------------------------------------------------------------

  /** `c.strip().lower()`. */
  function ColumnKey(c: string): (r: string)
    ensures IsLower(r) && IsStripped(r)
  {
    LowerKeepsStripped(Strip(c));
    Lower(Strip(c))
  }

  /** The key of every label, in order. */
  function Keys(labels: seq<string>): (r: seq<string>)
    ensures |r| == |labels|
    ensures forall i :: 0 <= i < |labels| ==> r[i] == ColumnKey(labels[i])
  {
    seq(|labels|, i requires 0 <= i < |labels| => ColumnKey(labels[i]))
  }

  /** A dict built from (key, value) pairs in order: a later pair overwrites an earlier one with the same key. */
  function MapOf<K(==,!new), V>(keys: seq<K>, values: seq<V>): (m: map<K, V>)
    requires |keys| == |values|
    ensures forall key :: key in m <==> key in keys
    decreases |keys|
  {
    if keys == [] then map[]
    else
      var n := |keys| - 1;
      assert forall key :: key in keys <==> key in keys[..n] || key == keys[n];
      MapOf(keys[..n], values[..n])[keys[n] := values[n]]
  }

  /** No position after `i` holds the key at `i`. */
  predicate LastOf<K(==)>(keys: seq<K>, i: int) {
    0 <= i < |keys| && forall j :: i < j < |keys| ==> keys[j] != keys[i]
  }

  /** Each key of `MapOf` holds the value of the last pair with that key. */
  lemma {:induction false} MapOfKeepsLast<K(!new), V>(keys: seq<K>, values: seq<V>, key: K)
    requires |keys| == |values| && key in keys
    ensures exists i :: LastOf(keys, i) && keys[i] == key && MapOf(keys, values)[key] == values[i]
    decreases |keys|
  {
    var n := |keys| - 1;
    if keys[n] == key {
      assert LastOf(keys, n);
    } else {
      var pk, pv := keys[..n], values[..n];
      assert key in pk by {
        var j :| 0 <= j < |keys| && keys[j] == key;
        assert pk[j] == key;
      }
      MapOfKeepsLast(pk, pv, key);
      var i :| LastOf(pk, i) && pk[i] == key && MapOf(pk, pv)[key] == pv[i];
      MapOfStep(keys, values, key, i);
    }
  }

  /** The step of `MapOfKeepsLast` when the last pair has another key. */
  lemma MapOfStep<K(!new), V>(keys: seq<K>, values: seq<V>, key: K, i: int)
    requires |keys| == |values| && keys != [] && keys[|keys| - 1] != key
    requires LastOf(keys[..|keys| - 1], i) && keys[i] == key
    requires MapOf(keys[..|keys| - 1], values[..|keys| - 1])[key] == values[i]
    ensures LastOf(keys, i) && MapOf(keys, values)[key] == values[i]
  {
    var n := |keys| - 1;
    assert MapOf(keys, values) == MapOf(keys[..n], values[..n])[keys[n] := values[n]];
    assert keys[..n][i] == keys[i];
    forall j | i < j < |keys|
      ensures keys[j] != keys[i]
    {
      if j < n {
        assert keys[..n][j] == keys[j];
      }
    }
  }

  /** `{c.strip().lower(): c for c in df.columns}`. */
  function ColumnMap(columns: seq<string>): (m: map<string, string>)
    ensures forall key :: key in m <==> key in Keys(columns)
  {
    MapOf(Keys(columns), columns)
  }

  lemma ColumnInMap(columns: seq<string>, i: nat)
    requires i < |columns|
    ensures ColumnKey(columns[i]) in ColumnMap(columns)
  {
    var ks := Keys(columns);
    assert ks[i] in ks;
  }

  /** The value of the first key of `keys` that `m` holds. */
  function FirstHit(m: map<string, string>, keys: seq<string>): (r: Option<string>)
    ensures r.None? <==> forall k :: 0 <= k < |keys| ==> keys[k] !in m
    ensures r.Some? ==> exists k :: 0 <= k < |keys| && keys[k] in m && r.value == m[keys[k]] && forall j :: 0 <= j < k ==> keys[j] !in m
    decreases |keys|
  {
    if keys == [] then None
    else if keys[0] in m then Some(m[keys[0]])
    else
      var r := FirstHit(m, keys[1..]);
      assert forall k :: 1 <= k < |keys| ==> keys[1..][k - 1] == keys[k];
      if r.Some? then
        var k :| 0 <= k < |keys[1..]| && keys[1..][k] in m && r.value == m[keys[1..][k]]
                 && forall j :: 0 <= j < k ==> keys[1..][j] !in m;
        assert forall j :: 0 <= j < k + 1 ==> keys[j] !in m by {
          forall j | 0 <= j < k + 1
            ensures keys[j] !in m
          {
            if j > 0 {
              assert keys[j] == keys[1..][j - 1];
            }
          }
        }
        r
      else r
  }

  /** `pick(*cands)`: the column of the first candidate whose key is a column key. */
  function Pick(columns: seq<string>, candidates: seq<string>): Option<string> {
    FirstHit(ColumnMap(columns), Keys(candidates))
  }

  /** A candidate whose key is some column's key decides `pick`: the candidates after it are never looked at. */
  lemma PickFirstMatchWins(columns: seq<string>, cand: string, rest: seq<string>)
    requires exists i :: 0 <= i < |columns| && ColumnKey(columns[i]) == ColumnKey(cand)
    ensures Pick(columns, [cand] + rest) == Pick(columns, [cand])
    ensures Pick(columns, [cand]).Some?
  {
    var i :| 0 <= i < |columns| && ColumnKey(columns[i]) == ColumnKey(cand);
    ColumnInMap(columns, i);
    assert Keys([cand] + rest)[0] == ColumnKey(cand);
    assert Keys([cand])[0] == ColumnKey(cand);
  }

  /** A candidate that matches no column is skipped by `pick`. */
  lemma PickSkipsUnmatched(columns: seq<string>, cand: string, rest: seq<string>)
    requires forall i :: 0 <= i < |columns| ==> ColumnKey(columns[i]) != ColumnKey(cand)
    ensures Pick(columns, [cand] + rest) == Pick(columns, rest)
  {
    var ks, cks := Keys(columns), Keys([cand] + rest);
    assert cks[0] == ColumnKey(cand);
    assert forall i :: 0 <= i < |ks| ==> ks[i] != ColumnKey(cand);
    assert cks[1..] == Keys(rest);
  }

  /** `find_column(df, candidates)`. */
  function FindColumn(df: Option<seq<string>>, candidates: seq<string>): (r: Option<string>)
    ensures df.None? ==> r.None?
  {
    if df.None? then None else Pick(df.value, candidates)
  }

  /** The candidate `pick` settles on matches a column, and no earlier candidate matches any column. */
  lemma PickCandidate(columns: seq<string>, candidates: seq<string>)
    requires Pick(columns, candidates).Some?
    ensures var c := Pick(columns, candidates).value;
      exists k :: (&& 0 <= k < |candidates| && ColumnKey(candidates[k]) == ColumnKey(c)
                   && forall j, i :: 0 <= j < k && 0 <= i < |columns| ==> ColumnKey(columns[i]) != ColumnKey(candidates[j]))
    ensures var c := Pick(columns, candidates).value;
      ColumnKey(c) in ColumnMap(columns) && ColumnMap(columns)[ColumnKey(c)] == c
  {
    var cks := Keys(candidates);
    var m := ColumnMap(columns);
    var c := Pick(columns, candidates).value;
    var k :| 0 <= k < |cks| && cks[k] in m && c == m[cks[k]] && forall j :: 0 <= j < k ==> cks[j] !in m;
    PickColumn(columns, cks[k]);
    forall j, i | 0 <= j < k && 0 <= i < |columns|
      ensures ColumnKey(columns[i]) != ColumnKey(candidates[j])
    {
      ColumnInMap(columns, i);
    }
  }

  /** The column a key maps to is the last column with that key. */
  lemma PickColumn(columns: seq<string>, key: string)
    requires key in ColumnMap(columns)
    ensures exists i :: (&& 0 <= i < |columns| && columns[i] == ColumnMap(columns)[key] && ColumnKey(columns[i]) == key
                         && forall j :: i < j < |columns| ==> ColumnKey(columns[j]) != key)
  {
    var ks := Keys(columns);
    MapOfKeepsLast(ks, columns, key);
    var i :| LastOf(ks, i) && ks[i] == key && MapOf(ks, columns)[key] == columns[i];
    forall j | i < j < |columns|
      ensures ColumnKey(columns[j]) != key
    {
      assert ks[j] != ks[i];
    }
    assert columns[i] == ColumnMap(columns)[key] && ColumnKey(columns[i]) == key;
  }

  /**
   * A column found is one of the frame's columns whose key is the key of a
   * candidate; no earlier candidate matches any column, and no later column
   * has the same key.
   */
  lemma FindColumnSound(df: Option<seq<string>>, candidates: seq<string>)
    requires FindColumn(df, candidates).Some?
    ensures df.Some?
    ensures var c := FindColumn(df, candidates).value;
      exists k :: (&& 0 <= k < |candidates| && ColumnKey(candidates[k]) == ColumnKey(c)
                   && forall j, i :: 0 <= j < k && 0 <= i < |df.value| ==> ColumnKey(df.value[i]) != ColumnKey(candidates[j]))
    ensures var c := FindColumn(df, candidates).value;
      exists i :: (&& 0 <= i < |df.value| && df.value[i] == c
                   && forall j :: i < j < |df.value| ==> ColumnKey(df.value[j]) != ColumnKey(c))
  {
    var columns := df.value;
    PickCandidate(columns, candidates);
    PickColumn(columns, ColumnKey(Pick(columns, candidates).value));
  }

  /** Nothing is found exactly when no candidate's key is the key of a column. */
  lemma FindColumnComplete(columns: seq<string>, candidates: seq<string>)
    ensures FindColumn(Some(columns), candidates).None? <==>
      forall k, i :: 0 <= k < |candidates| && 0 <= i < |columns| ==> ColumnKey(columns[i]) != ColumnKey(candidates[k])
  {
    var ks, cks := Keys(columns), Keys(candidates);
    if FindColumn(Some(columns), candidates).None? {
      forall k, i | 0 <= k < |candidates| && 0 <= i < |columns|
        ensures ColumnKey(columns[i]) != ColumnKey(candidates[k])
      {
        assert cks[k] !in ColumnMap(columns);
        assert ks[i] in ks;
      }
    } else {
      FindColumnSound(Some(columns), candidates);
    }
  }

  /** Of two columns with one key, the later wins, whatever case and blanks the candidate uses. */
  lemma LaterColumnWins(a: string, b: string, cand: string)
    requires ColumnKey(a) == ColumnKey(b) == ColumnKey(cand)
    ensures FindColumn(Some([a, b]), [cand]) == Some(b)
  {
    var columns := [a, b];
    FindColumnComplete(columns, [cand]);
    assert ColumnKey(columns[0]) == ColumnKey([cand][0]);
    FindColumnSound(Some(columns), [cand]);
    var c := FindColumn(Some(columns), [cand]).value;
    var i :| 0 <= i < 2 && columns[i] == c && forall j :: i < j < 2 ==> ColumnKey(columns[j]) != ColumnKey(c);
    assert ColumnKey(c) == ColumnKey(b);
  }

  // ---------------------------------------------------------------------------
  // safe_get(df_row, col_name)
  // ---------------------------------------------------------------------------

  /** A cell: missing (`pd.notna` is false), or the text `str(value)` renders. */
  datatype Cell = Missing | Value(text: string)

  /** `safe_get(df_row, col_name)`: the stripped text, or "" for a missing, blank or "nan" cell. */
  function SafeGet(row: map<string, Cell>, colName: string): (r: string)
    ensures r == "" <==> || colName !in row || row[colName].Missing?
                         || Strip(row[colName].text) == ""
                         || Lower(Strip(row[colName].text)) == "nan"
    ensures r != "" ==> r == Strip(row[colName].text)
    ensures IsStripped(r) && Lower(r) != "nan"
  {
    if colName in row && row[colName].Value? then
      var text := Strip(row[colName].text);
      if text != "" && Lower(text) != "nan" then text else ""
    else ""
  }

  /** Storing a cleaned value back and reading it again gives the same value. */
  lemma SafeGetStable(row: map<string, Cell>, colName: string)
    ensures var v := SafeGet(row, colName);
      SafeGet(row[colName := Value(v)], colName) == v
  {
  }
}
