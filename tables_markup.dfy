/**
 * The table demos' data and the text they turn into copyable snippets:
 * `escapeHtml`, `buildSectionHtml` and the filter table's rows with their
 * "No results" fallback (pages/Components/TablesDemo.jsx).
 */
module TablesData {

  /** One person in the demo tables. */
  datatype Row = Row(id: int, name: string, email: string, role: string)

  /** `baseData`: the six people every table demo draws from. */
  const BaseData: seq<Row> := [
    Row(1, "Jane Cooper", "jane.cooper@example.com", "Engineer"),
    Row(2, "Mark Edwards", "mark.edwards@example.com", "Designer"),
    Row(3, "Emily Clark", "emily.clark@example.com", "Product"),
    Row(4, "Luke Walker", "luke.walker@example.com", "Engineer"),
    Row(5, "Ava Scott", "ava.scott@example.com", "Support"),
    Row(6, "Noah Brooks", "noah.brooks@example.com", "Engineer")
  ]
}

module TablesMarkup {
  import opened Text
  import opened TablesData

  /** The three characters `escapeHtml` rewrites. */
  predicate Special(c: char)
  {
    c == '&' || c == '<' || c == '>'
  }

  const AllSpecial: set<char> := {'&', '<', '>'}

  /** The entity a special character is written as. */
  function Entity(c: char): string
    requires Special(c)
  {
    if c == '&' then "&amp;" else if c == '<' then "&lt;" else "&gt;"
  }

  /** One character, written as its entity when it is one of the `escaped` special characters. */
  function EncodeChar(escaped: set<char>, c: char): string
  {
    if c in escaped && Special(c) then Entity(c) else [c]
  }

  /**
   * Character-by-character encoding: each character of `s` becomes exactly one
   * unit, its entity or itself. The stages of `escapeHtml` and of its inverse are
   * all of this form, for different sets of escaped characters.
   */
  function Encode(escaped: set<char>, s: string): string
  {
    if |s| == 0 then "" else EncodeChar(escaped, s[0]) + Encode(escaped, s[1..])
  }

  /** `escapeHtml`: replace every `&`, then every `<`, then every `>`. */
  function EscapeHtml(s: string): string
  {
    ReplaceAll(ReplaceAll(ReplaceAll(s, "&", "&amp;"), "<", "&lt;"), ">", "&gt;")
  }

  /** Reading an escaped snippet back: `&lt;`, then `&gt;`, then `&amp;` to their characters. */
  function UnescapeHtml(t: string): string
  {
    ReplaceAll(ReplaceAll(ReplaceAll(t, "&lt;", "<"), "&gt;", ">"), "&amp;", "&")
  }

  lemma {:induction false} EncodeNothing(s: string)
    ensures Encode({}, s) == s
  {
    if |s| > 0 {
      EncodeNothing(s[1..]);
      assert s == [s[0]] + s[1..];
    }
  }

  /**
   * One escaping pass: replacing a special character `c` by its entity in text
   * where `c` is still raw escapes `c` as well. For `&` this holds only while no
   * entity has been written yet, since every entity starts with `&`.
   */
  lemma {:induction false} EncodeStep(e: set<char>, c: char, s: string)
    requires e <= AllSpecial && Special(c) && c !in e
    requires c == '&' ==> e == {}
    ensures ReplaceAll(Encode(e, s), [c], Entity(c)) == Encode(e + {c}, s)
  {
    if |s| > 0 {
      var x := s[0];
      var u := EncodeChar(e, x);
      var t := Encode(e, s[1..]);
      EncodeStep(e, c, s[1..]);
      if x == c {
        assert u == [c];
        ReplaceAllAtMatch(t, [c], Entity(c));
      } else {
        assert c !in u;
        ReplaceAllNoStart(u, t, [c], Entity(c));
        assert EncodeChar(e + {c}, x) == u;
      }
    }
  }

  /** Entities start with `&`, have no other `&`, and two different ones differ in their second character. */
  lemma EntityDiffers(x: char, c: char)
    requires Special(x) && Special(c) && x != c
    ensures |Entity(x)| >= 4 && Entity(x)[0] == '&' && '&' !in Entity(x)[1..]
    ensures Entity(x)[1] != Entity(c)[1]
  {
    if x == '&' {
      assert Entity(x)[1..] == "amp;";
    } else if x == '<' {
      assert Entity(x)[1..] == "lt;";
    } else {
      assert Entity(x)[1..] == "gt;";
    }
  }

  /**
   * One decoding pass: while `&` is escaped, every `&` in the text opens an
   * entity, so replacing the entity of `c` by `c` un-escapes exactly `c`.
   */
  lemma {:induction false} DecodeStep(e: set<char>, c: char, s: string)
    requires e <= AllSpecial && c in e && '&' in e
    ensures ReplaceAll(Encode(e, s), Entity(c), [c]) == Encode(e - {c}, s)
  {
    if |s| > 0 {
      var x := s[0];
      var u := EncodeChar(e, x);
      var t := Encode(e, s[1..]);
      DecodeStep(e, c, s[1..]);
      if x == c {
        ReplaceAllAtMatch(t, Entity(c), [c]);
      } else if x in e {
        EntityDiffers(x, c);
        assert u == Entity(x);
        assert (u + t)[1] == u[1];
        ReplaceAllSkipChunk(u, t, Entity(c), [c]);
        assert EncodeChar(e - {c}, x) == u;
      } else {
        assert u == [x] && x != '&';
        ReplaceAllNoStart(u, t, Entity(c), [c]);
        assert EncodeChar(e - {c}, x) == u;
      }
    }
  }

  /**
   * Because `&` is replaced before `<` and `>`, `escapeHtml` maps each input
   * character to exactly one unit: its entity if it is `&`, `<` or `>`, itself otherwise.
   */
  lemma EscapeHtmlPerChar(s: string)
    ensures EscapeHtml(s) == Encode(AllSpecial, s)
  {
    EncodeNothing(s);
    EncodeStep({}, '&', s);
    assert {} + {'&'} == {'&'};
    var s1 := ReplaceAll(s, "&", "&amp;");
    assert s1 == Encode({'&'}, s);
    EncodeStep({'&'}, '<', s);
    assert {'&'} + {'<'} == {'&', '<'};
    var s2 := ReplaceAll(s1, "<", "&lt;");
    assert s2 == Encode({'&', '<'}, s);
    EncodeStep({'&', '<'}, '>', s);
    assert {'&', '<'} + {'>'} == AllSpecial;
  }

  /** Decoding `&lt;`, then `&gt;`, then `&amp;` gives back exactly the text that was escaped. */
  lemma EscapeHtmlRoundTrip(s: string)
    ensures UnescapeHtml(EscapeHtml(s)) == s
  {
    EscapeHtmlPerChar(s);
    DecodeStep(AllSpecial, '<', s);
    assert AllSpecial - {'<'} == {'&', '>'};
    DecodeStep({'&', '>'}, '>', s);
    assert {'&', '>'} - {'>'} == {'&'};
    DecodeStep({'&'}, '&', s);
    assert {'&'} - {'&'} == {};
    EncodeNothing(s);
  }

  lemma {:induction false} EncodeHidesEscaped(e: set<char>, s: string, c: char)
    requires e <= AllSpecial && c in e && c != '&'
    ensures c !in Encode(e, s)
  {
    if |s| > 0 {
      EncodeHidesEscaped(e, s[1..], c);
    }
  }

  /** The escaped text contains no `<` and no `>`. */
  lemma EscapeHtmlNoAngleBrackets(s: string)
    ensures '<' !in EscapeHtml(s) && '>' !in EscapeHtml(s)
  {
    EscapeHtmlPerChar(s);
    EncodeHidesEscaped(AllSpecial, s, '<');
    EncodeHidesEscaped(AllSpecial, s, '>');
  }

  /** How many times `c` occurs in `s`. */
  function Count(s: string, c: char): (n: nat)
    ensures n <= |s|
  {
    if |s| == 0 then 0 else (if s[0] == c then 1 else 0) + Count(s[1..], c)
  }

  lemma {:induction false} CountAppend(a: string, b: string, c: char)
    ensures Count(a + b, c) == Count(a, c) + Count(b, c)
  {
    if |a| > 0 {
      CountAppend(a[1..], b, c);
      assert (a + b)[1..] == a[1..] + b;
    } else {
      assert a + b == b;
    }
  }

  lemma {:induction false} EncodeLength(s: string)
    ensures |Encode(AllSpecial, s)| == |s| + 4 * Count(s, '&') + 3 * Count(s, '<') + 3 * Count(s, '>')
  {
    if |s| > 0 {
      EncodeLength(s[1..]);
    }
  }

  /** Each `&` grows by four characters, each `<` and `>` by three, everything else stays one character. */
  lemma EscapeHtmlLength(s: string)
    ensures |EscapeHtml(s)| == |s| + 4 * Count(s, '&') + 3 * Count(s, '<') + 3 * Count(s, '>')
  {
    EscapeHtmlPerChar(s);
    EncodeLength(s);
  }

  lemma {:induction false} CountAbsent(t: string, c: char)
    requires c !in t
    ensures Count(t, c) == 0
  {
    if |t| > 0 {
      assert c !in t[1..];
      CountAbsent(t[1..], c);
    }
  }

  lemma {:induction false} EncodeKeepsPlain(s: string, c: char)
    requires !Special(c) && c !in "amplgt;"
    ensures Count(Encode(AllSpecial, s), c) == Count(s, c)
  {
    if |s| > 0 {
      EncodeKeepsPlain(s[1..], c);
      if Special(s[0]) {
        var ent := Entity(s[0]);
        assert forall k :: 0 <= k < |ent| ==> ent[k] == '&' || ent[k] in "amplgt;";
        CountAbsent(ent, c);
      }
      CountAppend(EncodeChar(AllSpecial, s[0]), Encode(AllSpecial, s[1..]), c);
    }
  }

  lemma {:induction false} EncodeIdentity(s: string)
    requires forall i :: 0 <= i < |s| ==> !Special(s[i])
    ensures Encode(AllSpecial, s) == s
  {
    if |s| > 0 {
      EncodeIdentity(s[1..]);
      assert s == [s[0]] + s[1..];
    }
  }

  /**
   * Quotes are not escaped: `"` and `'` occur as often in the output as in the
   * input, and text without `&`, `<`, `>` comes back unchanged.
   */
  lemma EscapeHtmlKeepsQuotes(s: string)
    ensures Count(EscapeHtml(s), '"') == Count(s, '"')
    ensures Count(EscapeHtml(s), '\'') == Count(s, '\'')
    ensures (forall i :: 0 <= i < |s| ==> !Special(s[i])) ==> EscapeHtml(s) == s
  {
    EscapeHtmlPerChar(s);
    var e := Encode(AllSpecial, s);
    assert !Special('"') && '"' !in "amplgt;";
    assert !Special('\'') && '\'' !in "amplgt;";
    EncodeKeepsPlain(s, '"');
    EncodeKeepsPlain(s, '\'');
    if forall i :: 0 <= i < |s| ==> !Special(s[i]) {
      EncodeIdentity(s);
      assert e == s;
    }
  }

  /** `buildSectionHtml`: `<section>`, every line indented by two spaces, `</section>`, joined by newlines. */
  function BuildSectionHtml(lines: seq<string>): string
  {
    Join(["<section>"] + Indented(lines) + ["</section>"], "\n")
  }

  /** `strings.map((l) => "  " + l)`. */
  function Indented(lines: seq<string>): (r: seq<string>)
    ensures |r| == |lines|
  {
    seq(|lines|, i requires 0 <= i < |lines| => "  " + lines[i])
  }

  /**
   * The snippet is `<section>` and a newline, the indented lines joined by
   * newlines (each followed by one more newline when there are any), and
   * `</section>`; with no lines it is `<section>\n</section>`.
   */
  lemma BuildSectionHtmlShape(lines: seq<string>)
    ensures BuildSectionHtml(lines)
         == "<section>\n" + Join(Indented(lines), "\n") + (if |lines| > 0 then "\n" else "") + "</section>"
    ensures BuildSectionHtml([]) == "<section>\n</section>"
  {
    var body := Indented(lines);
    if |lines| > 0 {
      JoinSnoc(body, "</section>", "\n");
      JoinCons("<section>", body + ["</section>"], "\n");
      assert ["<section>"] + body + ["</section>"] == ["<section>"] + (body + ["</section>"]);
    } else {
      assert body == [];
      assert ["<section>"] + body + ["</section>"] == ["<section>", "</section>"];
      assert Join(["<section>", "</section>"], "\n") == "<section>" + "\n" + "</section>";
    }
    EmptySection();
  }

  lemma EmptySection()
    ensures BuildSectionHtml([]) == "<section>\n</section>"
  {
    assert Indented([]) == [];
    assert ["<section>"] + Indented([]) + ["</section>"] == ["<section>", "</section>"];
    assert Join(["<section>", "</section>"], "\n") == "<section>" + "\n" + "</section>";
  }

  /**
   * When no line holds a newline, splitting the snippet on newlines gives back
   * the frame and each indented line. The page's own snippets interpolate rows
   * already joined with newlines, so for them this reads the lines back only
   * up to those embedded newlines.
   */
  lemma BuildSectionHtmlLines(lines: seq<string>)
    requires forall i :: 0 <= i < |lines| ==> '\n' !in lines[i]
    ensures Split(BuildSectionHtml(lines), '\n') == ["<section>"] + Indented(lines) + ["</section>"]
    ensures forall i :: 0 <= i < |lines| ==> Split(BuildSectionHtml(lines), '\n')[i + 1] == "  " + lines[i]
  {
    var parts := ["<section>"] + Indented(lines) + ["</section>"];
    forall i | 0 <= i < |parts| ensures '\n' !in parts[i] {
      if 0 < i < |parts| - 1 {
        assert parts[i] == "  " + lines[i - 1];
      }
    }
    SplitJoin(parts, '\n');
  }

  /** The filter table's separator between two rows of its snippet. */
  const RowSeparator := "\n        "

  /** The filter table's snippet when nothing matches: one row whose single cell spans the three columns. */
  const NoResultsRow := "<tr>\n" + NoResultsCell + "\n        </tr>"

  const NoResultsCell := "          <td className=\"px-4 py-6 text-gray-500\" colSpan={3}>No results</td>"

  /**
   * One filter-table row of the snippet; `mark` is `highlight(…, q)`, applied to
   * the name and the e-mail, while the role is only escaped.
   */
  function FilterRowHtml(r: Row, mark: string -> string): string
  {
    "<tr " + "className=\"border-t border-gray-100\">\n" + FilterRowCells(r, mark) + "\n        </tr>"
  }

  /** A matched row opens with `<tr ` where the "No results" row opens with `<tr>`. */
  lemma FilterRowOpening(r: Row, mark: string -> string)
    ensures |FilterRowHtml(r, mark)| > 3 && FilterRowHtml(r, mark)[3] == ' '
  {
    var rest := "className=\"border-t border-gray-100\">\n" + FilterRowCells(r, mark) + "\n        </tr>";
    assert FilterRowHtml(r, mark) == "<tr " + rest;
  }

  /** The three cells of a filter-table row, one per line. */
  function FilterRowCells(r: Row, mark: string -> string): string
  {
    "          <td className=\"px-4 py-2\"><span>" + mark(r.name) + "</span></td>\n"
      + "          <td className=\"px-4 py-2\"><span>" + mark(r.email) + "</span></td>\n"
      + "          <td className=\"px-4 py-2\">" + EscapeHtml(r.role) + "</td>"
  }

  /** The filter table's `rowsHtml`: its rows joined, or the "No results" row when there are none. */
  function FilterRowsHtml(filtered: seq<Row>, mark: string -> string): string
  {
    if |filtered| > 0
    then Join(seq(|filtered|, i requires 0 <= i < |filtered| => FilterRowHtml(filtered[i], mark)), RowSeparator)
    else NoResultsRow
  }

  lemma {:induction false} JoinStartsWithFirst(xs: seq<string>, sep: string)
    requires |xs| > 0
    ensures xs[0] <= Join(xs, sep)
  {
  }

  /** The "No results" row is shown exactly when the filter matched nothing. */
  lemma NoResultsExactlyWhenEmpty(filtered: seq<Row>, mark: string -> string)
    ensures FilterRowsHtml(filtered, mark) == NoResultsRow <==> |filtered| == 0
  {
    if |filtered| > 0 {
      var rows := seq(|filtered|, i requires 0 <= i < |filtered| => FilterRowHtml(filtered[i], mark));
      JoinStartsWithFirst(rows, RowSeparator);
      FilterRowOpening(filtered[0], mark);
      assert rows[0] == FilterRowHtml(filtered[0], mark);
      assert FilterRowsHtml(filtered, mark)[3] == ' ';
      assert NoResultsRow[3] == '>';
    }
  }
}
