/** `format_authors`: turns the manifest's `authors` entry into one line of prose. */
module Authors {
  import opened Wrappers
  import opened Toml
  import opened Quotes

  /** What one array entry contributes: its display form, dequoted. */
  function AuthorName(v: Value): string
  {
    Dequote(Display(v))
  }

  /** The dequoted names of the entries, in order. */
  function Names(vs: seq<Value>): (ns: seq<string>)
    ensures |ns| == |vs|
  {
    seq(|vs|, k requires 0 <= k < |vs| => AuthorName(vs[k]))
  }

  /** The text the loop appends for entry `a` of `ns`: every name but the
      last is followed by a comma, and the last is introduced by `and`. */
  function Fragment(ns: seq<string>, a: nat): string
    requires a < |ns|
  {
    if a < |ns| - 1 then " " + ns[a] + "," else " and " + ns[a]
  }

  /** The accumulating loop over the names from index `a` on. */
  function Accumulate(ns: seq<string>, a: nat, acc: string): string
    requires a <= |ns|
    decreases |ns| - a
  {
    if a == |ns| then acc else Accumulate(ns, a + 1, acc + Fragment(ns, a))
  }

  /** The authors line: `Unknown` unless the entry is an array; a lone entry
      verbatim; otherwise the accumulated fragments of the dequoted names. */
  function FormatAuthors(authors: Option<Value>): string
  {
    match authors
    case Some(Array(vs)) =>
      if |vs| == 1 then Display(vs[0]) else Accumulate(Names(vs), 0, "")
    case _ => "Unknown"
  }

  /** Reference shape of a list of one or more names, written independently
      of the loop: ` n1, n2, ..., and nN`. */
  function Prose(names: seq<string>): (r: string)
    requires |names| >= 1
    ensures |r| > 0 && r[0] == ' '
  {
    if |names| == 1 then " and " + names[0] else " " + names[0] + "," + Prose(names[1..])
  }

  lemma ProseStep(ns: seq<string>, a: nat)
    requires a + 1 < |ns|
    ensures Prose(ns[a..]) == " " + ns[a] + "," + Prose(ns[a + 1..])
  {
  }

  /** The loop from index `a` appends exactly the prose of the remaining names. */
  lemma {:induction false} AccumulateIsProse(ns: seq<string>, a: nat, acc: string)
    requires a < |ns|
    ensures Accumulate(ns, a, acc) == acc + Prose(ns[a..])
    decreases |ns| - a
  {
    if a == |ns| - 1 {
      assert ns[a..] == [ns[a]];
    } else {
      var acc' := acc + Fragment(ns, a);
      var tail := Prose(ns[a + 1..]);
      assert Accumulate(ns, a, acc) == acc' + tail by {
        AccumulateIsProse(ns, a + 1, acc');
      }
      assert acc' + tail == acc + Prose(ns[a..]) by {
        ProseStep(ns, a);
        assert acc' == acc + (" " + ns[a] + ",");
      }
    }
  }

  /** `Unknown` comes out exactly when the entry is missing or not an array:
      no array, however short, formats to that word. */
  lemma FormatAuthorsUnknown(authors: Option<Value>)
    ensures FormatAuthors(authors) == "Unknown" <==> (authors.None? || !authors.value.Array?)
  {
    if authors.Some? && authors.value.Array? {
      var vs := authors.value.items;
      if |vs| >= 2 {
        AccumulateIsProse(Names(vs), 0, "");
        assert Names(vs)[0..] == Names(vs);
        assert FormatAuthors(authors)[0] == ' ';
      }
    }
  }

  /** The three shapes of an array of authors: empty gives the empty line, a
      single entry is shown verbatim (a string keeps its quotes), and two or
      more give the prose of their dequoted names in order. */
  lemma FormatAuthorsShape(vs: seq<Value>)
    ensures |vs| == 0 ==> FormatAuthors(Some(Array(vs))) == ""
    ensures |vs| == 1 ==> FormatAuthors(Some(Array(vs))) == Display(vs[0])
    ensures |vs| == 1 && vs[0].String? ==>
      FormatAuthors(Some(Array(vs))) == "\"" + vs[0].s + "\""
    ensures |vs| >= 2 ==> FormatAuthors(Some(Array(vs))) == Prose(Names(vs))
  {
    if |vs| >= 2 {
      AccumulateIsProse(Names(vs), 0, "");
      assert Names(vs)[0..] == Names(vs);
    }
  }

  /** A string author without quotes at its ends is named by its own text. */
  lemma NameOfString(s: string)
    requires Unquoted(s)
    ensures AuthorName(String(s)) == s
  {
    assert Display(String(s)) == "\"" + s + "\"";
    DequoteQuoted(s);
  }

  function StringValues(names: seq<string>): (vs: seq<Value>)
    ensures |vs| == |names|
    ensures forall k :: 0 <= k < |names| ==> vs[k] == String(names[k])
  {
    seq(|names|, k requires 0 <= k < |names| => String(names[k]))
  }

  /** For string authors without quotes at their ends, the line is the
      prose of the names themselves. */
  lemma {:induction false} FormatStringAuthors(names: seq<string>)
    requires |names| >= 2
    requires forall k :: 0 <= k < |names| ==> Unquoted(names[k])
    ensures FormatAuthors(Some(Array(StringValues(names)))) == Prose(names)
  {
    var vs := StringValues(names);
    forall k | 0 <= k < |names|
      ensures Names(vs)[k] == names[k]
    {
      NameOfString(names[k]);
    }
    assert Names(vs) == names;
    FormatAuthorsShape(vs);
  }

  lemma ProseOfTwo(a: string, b: string)
    ensures Prose([a, b]) == " " + a + ", and " + b
  {
  }

  /** Two authors `A` and `B` give ` A, and B`: a leading space and a comma before `and`. */
  lemma {:induction false} FormatTwoAuthors(a: string, b: string)
    requires Unquoted(a) && Unquoted(b)
    ensures FormatAuthors(Some(Array([String(a), String(b)]))) == " " + a + ", and " + b
  {
    FormatStringAuthors([a, b]);
    assert StringValues([a, b]) == [String(a), String(b)];
    ProseOfTwo(a, b);
  }
}
