/** Row classification of the mutation-list import (`PyBmwPanel.load_mutations_from_csv`,
    the body of its `for row in reader` loop) and the accumulation over all rows. */
module CsvImport {

  import opened Wrappers
  import opened ResidueOrder

  /** One record as the csv reader yields it: its fields, unparsed. */
  type Row = seq<string>

  /** `self.amino_acids`: the twenty accepted target codes, in combo-box order. */
  const AminoAcids: seq<string> := ["ALA", "ARG", "ASN", "ASP", "CYS", "GLN", "GLU", "GLY", "HIS", "ILE",
                                    "LEU", "LYS", "MET", "PHE", "PRO", "SER", "THR", "TRP", "TYR", "VAL"]

  /** The code a freshly built combo box shows: the first of the list. */
  const DefaultCode: string := "ALA"

  /** Python's `str.isspace`: the characters `strip()` removes and `split()` splits on. */
  predicate IsSpace(c: char)
  {
    var n := c as int;
    || 9 <= n <= 13 || 28 <= n <= 32 || n == 0x85 || n == 0xA0 || n == 0x1680
    || 0x2000 <= n <= 0x200A || n == 0x2028 || n == 0x2029 || n == 0x202F || n == 0x205F || n == 0x3000
  }

  predicate NoSpace(s: string)
  {
    forall i :: 0 <= i < |s| ==> !IsSpace(s[i])
  }

  // ---------------------------------------------------------------------------
  // str.strip, str.upper, str.replace('/', ' '), str.split

  function LeadingSpaces(s: string): (n: nat)
    ensures n <= |s|
    ensures forall j :: 0 <= j < n ==> IsSpace(s[j])
    ensures n < |s| ==> !IsSpace(s[n])
  {
    if s != [] && IsSpace(s[0]) then 1 + LeadingSpaces(s[1..]) else 0
  }

  function TrailingStart(s: string): (m: nat)
    ensures m <= |s|
    ensures forall j :: m <= j < |s| ==> IsSpace(s[j])
    ensures 0 < m ==> !IsSpace(s[m - 1])
  {
    if s != [] && IsSpace(s[|s| - 1]) then TrailingStart(s[..|s| - 1]) else |s|
  }

  /** `str.strip()`: `s` with its leading and trailing white space removed. */
  function Strip(s: string): (r: string)
    ensures exists i, j ::
      && 0 <= i <= j <= |s| && r == s[i..j]
      && (forall k :: 0 <= k < i ==> IsSpace(s[k]))
      && (forall k :: j <= k < |s| ==> IsSpace(s[k]))
    ensures r == [] || (!IsSpace(r[0]) && !IsSpace(r[|r| - 1]))
  {
    var i := LeadingSpaces(s);
    var rest := s[i..];
    var m := TrailingStart(rest);
    assert rest[..m] == s[i..i + m];
    assert forall k :: i + m <= k < |s| ==> s[k] == rest[k - i];
    rest[..m]
  }

  function UpperChar(c: char): char
  {
    if 'a' <= c <= 'z' then (c as int - 'a' as int + 'A' as int) as char else c
  }

  /** `str.upper()` on ASCII letters. */
  function Upper(s: string): (r: string)
    ensures |r| == |s| && forall i :: 0 <= i < |s| ==> r[i] == UpperChar(s[i])
  {
    if s == [] then [] else [UpperChar(s[0])] + Upper(s[1..])
  }

  /** `s.replace('/', ' ')`. */
  function ReplaceSlashes(s: string): (r: string)
    ensures |r| == |s|
    ensures forall i :: 0 <= i < |s| ==> r[i] == if s[i] == '/' then ' ' else s[i]
  {
    if s == [] then [] else [if s[0] == '/' then ' ' else s[0]] + ReplaceSlashes(s[1..])
  }

  /** Length of the word `s` starts with. */
  function WordLength(s: string): (n: nat)
    requires s != [] && !IsSpace(s[0])
    ensures 0 < n <= |s|
    ensures forall j :: 0 <= j < n ==> !IsSpace(s[j])
    ensures n < |s| ==> IsSpace(s[n])
  {
    if |s| == 1 || IsSpace(s[1]) then 1 else 1 + WordLength(s[1..])
  }

  predicate NotSpace(c: char)
  {
    !IsSpace(c)
  }

  /** `''.join(words)`. */
  function Concat(words: seq<string>): string
  {
    if words == [] then "" else words[0] + Concat(words[1..])
  }

  /** The number of maximal runs of non-space characters in `s`; `atBoundary` says whether
      a run may start at `s[0]` (true at the start of the string or after white space). */
  function WordCount(s: string, atBoundary: bool): nat
  {
    if s == [] then 0
    else (if atBoundary && !IsSpace(s[0]) then 1 else 0) + WordCount(s[1..], IsSpace(s[0]))
  }

  /** Inside a run, the rest of the run starts no new one. */
  lemma {:induction false} WordCountSkipsRun(s: string, k: nat)
    requires k <= |s|
    requires forall j :: 0 <= j < k ==> !IsSpace(s[j])
    ensures WordCount(s, false) == WordCount(s[k..], false)
  {
    if k > 0 {
      WordCountSkipsRun(s[1..], k - 1);
      assert s[1..][k - 1..] == s[k..];
    }
  }

  /** `str.split()` with no separator: the maximal runs of non-space characters, in order.
      Joined together they give back every non-space character of `s`, and there is one
      word per run. */
  function Split(s: string): (r: seq<string>)
    ensures forall i :: 0 <= i < |r| ==> r[i] != [] && NoSpace(r[i])
    ensures Concat(r) == Keep(s, NotSpace)
    ensures |r| == WordCount(s, true)
    decreases |s|
  {
    if s == [] then []
    else if IsSpace(s[0]) then
      assert Keep(s, NotSpace) == Keep(s[1..], NotSpace) by {
        assert [] + Keep(s[1..], NotSpace) == Keep(s[1..], NotSpace);
      }
      Split(s[1..])
    else
      var n := WordLength(s);
      var rest := Split(s[n..]);
      assert Concat([s[..n]] + rest) == s[..n] + Concat(rest) by {
        assert ([s[..n]] + rest)[0] == s[..n];
        assert ([s[..n]] + rest)[1..] == rest;
      }
      assert Keep(s, NotSpace) == s[..n] + Keep(s[n..], NotSpace) by {
        assert s == s[..n] + s[n..];
        KeepAppend(s[..n], s[n..], NotSpace);
        KeepAll(s[..n], NotSpace);
      }
      assert WordCount(s, true) == 1 + WordCount(s[n..], true) by {
        WordCountSkipsRun(s[1..], n - 1);
        assert s[1..][n - 1..] == s[n..];
      }
      [s[..n]] + rest
  }

  /** `' '.join(words)`. */
  function JoinWords(words: seq<string>): string
  {
    if words == [] then "" else if |words| == 1 then words[0] else words[0] + " " + JoinWords(words[1..])
  }

  lemma WordLengthOfWord(w: string, rest: string)
    requires w != [] && NoSpace(w)
    requires rest == [] || IsSpace(rest[0])
    ensures WordLength(w + rest) == |w|
  {
    assert forall j :: 0 <= j < |w| ==> (w + rest)[j] == w[j];
    assert |rest| > 0 ==> (w + rest)[|w|] == rest[0];
  }

  /** Splitting words joined by single spaces gives the words back. */
  lemma {:induction false} SplitJoinWords(words: seq<string>)
    requires forall i :: 0 <= i < |words| ==> words[i] != [] && NoSpace(words[i])
    ensures Split(JoinWords(words)) == words
  {
    if words == [] {
    } else if |words| == 1 {
      var w := words[0];
      WordLengthOfWord(w, []);
      assert w + [] == w;
      assert w[|w|..] == [];
    } else {
      var w, tail := words[0], JoinWords(words[1..]);
      var s := w + " " + tail;
      WordLengthOfWord(w, " " + tail);
      assert s == w + (" " + tail);
      assert s[..|w|] == w;
      assert s[|w|..] == " " + tail;
      assert (" " + tail)[1..] == tail;
      SplitJoinWords(words[1..]);
    }
  }

  predicate AllSpace(s: string)
  {
    forall i :: 0 <= i < |s| ==> IsSpace(s[i])
  }

  /** `seps[0] + words[0] + seps[1] + ... + words[n-1] + seps[n]`. */
  function Interleave(seps: seq<string>, words: seq<string>): string
    requires |seps| == |words| + 1
  {
    if words == [] then seps[0] else seps[0] + words[0] + Interleave(seps[1..], words[1..])
  }

  /** White-space runs around and between words: the inner ones non-empty, the outer ones
      possibly empty. */
  predicate Separators(seps: seq<string>, words: seq<string>)
  {
    && |seps| == |words| + 1
    && (forall i :: 0 <= i < |seps| ==> AllSpace(seps[i]))
    && (forall i :: 0 < i < |words| ==> seps[i] != [])
  }

  lemma {:induction false} SplitSkipsSpaces(sp: string, t: string)
    requires AllSpace(sp)
    ensures Split(sp + t) == Split(t)
  {
    if sp == [] {
      assert sp + t == t;
    } else {
      assert (sp + t)[0] == sp[0] && (sp + t)[1..] == sp[1..] + t;
      SplitSkipsSpaces(sp[1..], t);
    }
  }

  lemma SplitTakesWord(w: string, t: string)
    requires w != [] && NoSpace(w)
    requires t == [] || IsSpace(t[0])
    ensures Split(w + t) == [w] + Split(t)
  {
    WordLengthOfWord(w, t);
    var s := w + t;
    assert s[0] == w[0] && s[..|w|] == w && s[|w|..] == t;
  }

  /** After the first word, the rest of an interleaving is empty or starts with white space,
      and its separators are separators of the remaining words. */
  lemma SeparatorsTail(seps: seq<string>, words: seq<string>)
    requires Separators(seps, words) && words != []
    ensures Separators(seps[1..], words[1..])
    ensures var rest := Interleave(seps[1..], words[1..]); rest == [] || IsSpace(rest[0])
  {
    forall i | 0 < i < |words[1..]| ensures seps[1..][i] != [] {
      assert seps[1..][i] == seps[i + 1];
    }
    var rest := Interleave(seps[1..], words[1..]);
    if |words| > 1 {
      assert seps[1] != [];
      assert rest == seps[1..][0] + words[1..][0] + Interleave(seps[1..][1..], words[1..][1..]);
      assert rest[0] == seps[1][0];
    } else {
      assert rest == seps[1];
    }
  }

  /** Splitting words separated by any runs of white space, with any white space before the
      first and after the last, gives the words back: the tokens are exactly the maximal
      non-space runs, in order. */
  lemma {:induction false} SplitInterleave(seps: seq<string>, words: seq<string>)
    requires Separators(seps, words)
    requires forall i :: 0 <= i < |words| ==> words[i] != [] && NoSpace(words[i])
    ensures Split(Interleave(seps, words)) == words
  {
    if words == [] {
      SplitSkipsSpaces(seps[0], []);
      assert seps[0] + [] == seps[0];
    } else {
      var rest := Interleave(seps[1..], words[1..]);
      SeparatorsTail(seps, words);
      calc {
        Split(Interleave(seps, words));
        { assert Interleave(seps, words) == seps[0] + (words[0] + rest); }
        Split(seps[0] + (words[0] + rest));
        { SplitSkipsSpaces(seps[0], words[0] + rest); }
        Split(words[0] + rest);
        { SplitTakesWord(words[0], rest); }
        [words[0]] + Split(rest);
        { SplitInterleave(seps[1..], words[1..]); }
        [words[0]] + words[1..];
        words;
      }
    }
  }

  lemma DecomposeSpace(c: char, t: string, words: seq<string>, tail: seq<string>) returns (seps: seq<string>)
    requires IsSpace(c) && Separators(tail, words) && Interleave(tail, words) == t
    ensures Separators(seps, words) && Interleave(seps, words) == [c] + t
  {
    seps := [[c] + tail[0]] + tail[1..];
    assert seps[1..] == tail[1..];
    if words != [] {
      assert Interleave(tail, words) == tail[0] + words[0] + Interleave(tail[1..], words[1..]);
    }
    forall i | 0 < i < |words| ensures seps[i] != [] {
      assert seps[i] == tail[i];
    }
  }

  lemma DecomposeWord(w: string, t: string, words: seq<string>, tail: seq<string>) returns (seps: seq<string>)
    requires w != [] && NoSpace(w) && (t == [] || IsSpace(t[0]))
    requires forall i :: 0 <= i < |words| ==> words[i] != [] && NoSpace(words[i])
    requires Separators(tail, words) && Interleave(tail, words) == t
    ensures Separators(seps, [w] + words) && Interleave(seps, [w] + words) == w + t
  {
    seps := [[]] + tail;
    var all := [w] + words;
    assert seps[1..] == tail && all[1..] == words && all[0] == w;
    if words != [] {
      assert t == tail[0] + words[0] + Interleave(tail[1..], words[1..]);
      assert words[0] != [] && !IsSpace(words[0][0]);
      assert tail[0] != [];
    }
    forall i | 0 < i < |all| ensures seps[i] != [] {
      assert seps[i] == tail[i - 1];
    }
  }

  /** Every string is its tokens interleaved with white-space runs, so with SplitInterleave
      the tokens of `s` are determined: they are the words of that decomposition. */
  lemma {:induction false} SplitDecomposes(s: string) returns (seps: seq<string>)
    ensures Separators(seps, Split(s))
    ensures Interleave(seps, Split(s)) == s
    decreases |s|
  {
    if s == [] {
      seps := [[]];
    } else if IsSpace(s[0]) {
      var tail := SplitDecomposes(s[1..]);
      seps := DecomposeSpace(s[0], s[1..], Split(s), tail);
      assert s == [s[0]] + s[1..];
    } else {
      var n := WordLength(s);
      var tail := SplitDecomposes(s[n..]);
      seps := DecomposeWord(s[..n], s[n..], Split(s[n..]), tail);
      assert s == s[..n] + s[n..];
    }
  }

  // ---------------------------------------------------------------------------
  // Resolving a chain/residue against the loaded objects

  /** No listed object holds polymer atoms at `chain`/`resi`; `contains` holds exactly the
      (object, chain, resi) triples whose atom count is positive (a count that raises counts
      as zero). */
  ghost predicate NoneContain(objects: seq<string>, chain: string, resi: string, contains: set<ResidueKey>)
  {
    forall i :: 0 <= i < |objects| ==> ResidueKey(objects[i], chain, resi) !in contains
  }

  /** `name` is the first listed object holding `chain`/`resi`. */
  ghost predicate IsFirstContaining(objects: seq<string>, name: string, chain: string, resi: string, contains: set<ResidueKey>)
  {
    exists i :: 0 <= i < |objects| && objects[i] == name && ResidueKey(name, chain, resi) in contains
      && NoneContain(objects[..i], chain, resi, contains)
  }

  lemma FirstContainingStep(objects: seq<string>, chain: string, resi: string, contains: set<ResidueKey>, r: Option<string>)
    requires objects != [] && ResidueKey(objects[0], chain, resi) !in contains
    requires r.None? <==> NoneContain(objects[1..], chain, resi, contains)
    requires r.Some? ==> IsFirstContaining(objects[1..], r.value, chain, resi, contains)
    ensures r.None? <==> NoneContain(objects, chain, resi, contains)
    ensures r.Some? ==> IsFirstContaining(objects, r.value, chain, resi, contains)
  {
    if r.Some? {
      var tail := objects[1..];
      var i :| 0 <= i < |tail| && tail[i] == r.value && ResidueKey(r.value, chain, resi) in contains
        && NoneContain(tail[..i], chain, resi, contains);
      assert objects[i + 1] == r.value;
      forall j | 0 <= j < i + 1 ensures ResidueKey(objects[j], chain, resi) !in contains {
        if j > 0 { assert objects[j] == tail[..i][j - 1]; }
      }
      assert NoneContain(objects[..i + 1], chain, resi, contains);
      assert objects[1..][i] == r.value;
      assert !NoneContain(objects, chain, resi, contains) by {
        assert ResidueKey(objects[i + 1], chain, resi) in contains;
      }
    } else {
      forall i | 0 <= i < |objects| ensures ResidueKey(objects[i], chain, resi) !in contains {
        if i > 0 { assert objects[i] == objects[1..][i - 1]; }
      }
    }
  }

  /** The inner `for obj in all_objects` loop: the first object, in the host's object-list
      order, whose count of polymer atoms at `chain`/`resi` is positive. */
  function FirstContaining(objects: seq<string>, chain: string, resi: string, contains: set<ResidueKey>): (r: Option<string>)
    ensures r.None? <==> NoneContain(objects, chain, resi, contains)
    ensures r.Some? ==> IsFirstContaining(objects, r.value, chain, resi, contains)
  {
    if objects == [] then None
    else if ResidueKey(objects[0], chain, resi) in contains then
      assert NoneContain(objects[..0], chain, resi, contains);
      Some(objects[0])
    else
      var r := FirstContaining(objects[1..], chain, resi, contains);
      FirstContainingStep(objects, chain, resi, contains, r);
      r
  }

  /** At most one object is the first to hold a residue. */
  lemma FirstContainingUnique(objects: seq<string>, a: string, b: string, chain: string, resi: string,
                              contains: set<ResidueKey>)
    requires IsFirstContaining(objects, a, chain, resi, contains)
    requires IsFirstContaining(objects, b, chain, resi, contains)
    ensures a == b
  {
    var i :| 0 <= i < |objects| && objects[i] == a && ResidueKey(a, chain, resi) in contains
      && NoneContain(objects[..i], chain, resi, contains);
    var j :| 0 <= j < |objects| && objects[j] == b && ResidueKey(b, chain, resi) in contains
      && NoneContain(objects[..j], chain, resi, contains);
    assert forall k :: 0 <= k < i ==> objects[..i][k] == objects[k];
    assert forall k :: 0 <= k < j ==> objects[..j][k] == objects[k];
  }

  /** The loop's result is the one object that is first to hold the residue. */
  lemma FirstContainingExactly(objects: seq<string>, chain: string, resi: string, contains: set<ResidueKey>)
    ensures forall obj :: IsFirstContaining(objects, obj, chain, resi, contains)
                          <==> FirstContaining(objects, chain, resi, contains) == Some(obj)
  {
    var f := FirstContaining(objects, chain, resi, contains);
    forall obj | IsFirstContaining(objects, obj, chain, resi, contains) ensures f == Some(obj) {
      var i :| 0 <= i < |objects| && objects[i] == obj && ResidueKey(obj, chain, resi) in contains
        && NoneContain(objects[..i], chain, resi, contains);
      assert !NoneContain(objects, chain, resi, contains);
      FirstContainingUnique(objects, obj, f.value, chain, resi, contains);
    }
  }

  // ---------------------------------------------------------------------------
  // One row

  /** Why a row was not accepted; each carries the row it reports. */
  datatype Rejection =
    | InvalidCode(row: Row, code: string)
    | BadLocation(row: Row, location: string)
    | NotFound(row: Row, chain: string, resi: string)

  datatype RowOutcome =
    | Skipped
    | Rejected(reason: Rejection)
    | Accepted(key: ResidueKey, target: string)

  /** The location field cut into tokens, a slash counting as white space. */
  function LocationTokens(location: string): seq<string>
  {
    Split(ReplaceSlashes(location))
  }

  /** The body of the import loop for one row. */
  function ClassifyRow(row: Row, objects: seq<string>, contains: set<ResidueKey>): (r: RowOutcome)
    ensures r.Skipped? <==> |row| < 2
    ensures r.Rejected? ==> r.reason.row == row
    ensures r.Rejected? && r.reason.InvalidCode? <==> |row| >= 2 && Upper(Strip(row[1])) !in AminoAcids
    ensures r.Accepted? ==>
      && r.target == Upper(Strip(row[1])) && r.target in AminoAcids
      && |LocationTokens(Strip(row[0]))| >= 2
      && r.key.chain == LocationTokens(Strip(row[0]))[0]
      && r.key.resi == LocationTokens(Strip(row[0]))[1]
      && r.key.model != "" && r.key.model in objects && r.key in contains
      && IsFirstContaining(objects, r.key.model, r.key.chain, r.key.resi, contains)
    ensures r.Rejected? && r.reason.InvalidCode? ==> r.reason.code == Upper(Strip(row[1]))
    ensures r.Rejected? && r.reason.BadLocation? ==> r.reason.location == Strip(row[0])
    ensures r.Rejected? && r.reason.NotFound? ==>
      NoneContain(objects, r.reason.chain, r.reason.resi, contains)
      || IsFirstContaining(objects, "", r.reason.chain, r.reason.resi, contains)
  {
    if |row| < 2 then Skipped
    else
      var location, code := Strip(row[0]), Upper(Strip(row[1]));
      if code !in AminoAcids then Rejected(InvalidCode(row, code))
      else
        var parts := LocationTokens(location);
        if |parts| < 2 then Rejected(BadLocation(row, location))
        else
          var chain, resi := parts[0], parts[1];
          match FirstContaining(objects, chain, resi, contains)
          case Some(obj) =>
            // `if found_model:` treats an empty object name as not found
            if obj != "" then Accepted(ResidueKey(obj, chain, resi), code)
            else Rejected(NotFound(row, chain, resi))
          case None => Rejected(NotFound(row, chain, resi))
  }

  /** The converse directions of ClassifyRow: with a valid code, a bad location exactly when
      the location has fewer than two tokens; a not-found rejection names those tokens; and a
      row is accepted exactly when its code is valid, it has two tokens and the first object
      holding them has a non-empty name. */
  lemma ClassifyRowComplete(row: Row, objects: seq<string>, contains: set<ResidueKey>)
    ensures var r := ClassifyRow(row, objects, contains);
      && (|row| >= 2 && Upper(Strip(row[1])) in AminoAcids ==>
            (r.Rejected? && r.reason.BadLocation? <==> |LocationTokens(Strip(row[0]))| < 2))
      && (r.Rejected? && r.reason.NotFound? ==>
            && Upper(Strip(row[1])) in AminoAcids
            && |LocationTokens(Strip(row[0]))| >= 2
            && r.reason.chain == LocationTokens(Strip(row[0]))[0]
            && r.reason.resi == LocationTokens(Strip(row[0]))[1])
      && (r.Accepted? <==>
            && |row| >= 2 && Upper(Strip(row[1])) in AminoAcids
            && |LocationTokens(Strip(row[0]))| >= 2
            && exists obj :: obj != "" && IsFirstContaining(objects, obj, LocationTokens(Strip(row[0]))[0],
                                                            LocationTokens(Strip(row[0]))[1], contains))
  {
    if |row| >= 2 {
      var parts := LocationTokens(Strip(row[0]));
      if |parts| >= 2 {
        FirstContainingExactly(objects, parts[0], parts[1], contains);
      }
    }
  }

  /** `','.join(row)`. */
  function JoinFields(row: Row): string
  {
    if row == [] then "" else if |row| == 1 then row[0] else row[0] + "," + JoinFields(row[1..])
  }

  /** How every rejection message starts: it quotes the whole row. */
  function MessageHead(row: Row): string
  {
    "Row '" + JoinFields(row) + "': "
  }

  /** The text shown for a rejected row. */
  function Message(j: Rejection): (m: string)
    ensures MessageHead(j.row) <= m
  {
    var head := MessageHead(j.row);
    match j
    case InvalidCode(_, code) => head + ("'" + code + "' is not a valid amino acid code.")
    case BadLocation(_, location) =>
      head + ("Location format '" + location + "' is invalid. Use Chain ResID (e.g., A 123).")
    case NotFound(_, chain, resi) => head + ("Residue " + chain + "/" + resi + " not found in any loaded object.")
  }

  // ---------------------------------------------------------------------------
  // All rows

  /** What the loop has accumulated: `found_residues`, `self.csv_targets` and `not_found`. */
  datatype Import = Import(found: set<ResidueKey>, targets: map<ResidueKey, string>, rejections: seq<Rejection>)

  /** The outcome of every row, in file order. */
  function Outcomes(rows: seq<Row>, objects: seq<string>, contains: set<ResidueKey>): (r: seq<RowOutcome>)
    ensures |r| == |rows|
    ensures forall i :: 0 <= i < |rows| ==> r[i] == ClassifyRow(rows[i], objects, contains)
  {
    seq(|rows|, i requires 0 <= i < |rows| => ClassifyRow(rows[i], objects, contains))
  }

  /** One pass of the loop body on the accumulators. */
  function Absorb(acc: Import, o: RowOutcome): Import
  {
    match o
    case Skipped => acc
    case Rejected(j) => acc.(rejections := acc.rejections + [j])
    case Accepted(k, t) => acc.(found := acc.found + {k}, targets := acc.targets[k := t])
  }

  /** What one pass does to the accumulators: a skipped row changes nothing, a rejected row
      appends its rejection and nothing else, and an accepted row records its residue with its
      target, replacing any earlier target, and leaves the rejections alone. */
  lemma AbsorbEffect(acc: Import, o: RowOutcome)
    ensures o.Skipped? ==> Absorb(acc, o) == acc
    ensures o.Rejected? ==> Absorb(acc, o) == acc.(rejections := acc.rejections + [o.reason])
    ensures o.Accepted? ==>
              && Absorb(acc, o).targets == acc.targets[o.key := o.target]
              && Absorb(acc, o).found == acc.found + {o.key}
              && Absorb(acc, o).rejections == acc.rejections
  {
  }

  lemma AbsorbKeepsTarget(acc: Import, o: RowOutcome, key: ResidueKey)
    requires key in acc.targets && !(o.Accepted? && o.key == key)
    ensures key in Absorb(acc, o).targets && Absorb(acc, o).targets[key] == acc.targets[key]
  {
  }

  /** The accumulators after the loop has absorbed `outcomes`, in order, from empty. */
  function Accumulate(outcomes: seq<RowOutcome>): (r: Import)
    ensures r.targets.Keys == r.found
    ensures forall k :: k in r.found ==> exists i :: 0 <= i < |outcomes| && outcomes[i] == Accepted(k, r.targets[k])
    ensures forall j :: j in r.rejections ==> Rejected(j) in outcomes
    ensures |r.rejections| <= |outcomes|
  {
    if outcomes == [] then Import({}, map[], [])
    else
      var init := outcomes[..|outcomes| - 1];
      var prev := Accumulate(init);
      assert forall i :: 0 <= i < |init| ==> init[i] == outcomes[i];
      Absorb(prev, outcomes[|outcomes| - 1])
  }

  lemma AccumulateLast(outcomes: seq<RowOutcome>)
    requires outcomes != []
    ensures Accumulate(outcomes) == Absorb(Accumulate(outcomes[..|outcomes| - 1]), outcomes[|outcomes| - 1])
  {
  }

  /** The accumulators after the loop has run over `rows`. */
  function ImportRows(rows: seq<Row>, objects: seq<string>, contains: set<ResidueKey>): (r: Import)
    ensures r.targets.Keys == r.found
    ensures forall k :: k in r.found ==>
      k in contains && k.model in objects && k.model != "" && r.targets[k] in AminoAcids
    ensures forall j :: j in r.rejections ==> j.row in rows
    ensures |r.rejections| <= |rows|
  {
    var outcomes := Outcomes(rows, objects, contains);
    var r := Accumulate(outcomes);
    assert forall j :: j in r.rejections ==> j.row in rows by {
      forall j | j in r.rejections ensures j.row in rows {
        var i :| 0 <= i < |outcomes| && outcomes[i] == Rejected(j);
        assert ClassifyRow(rows[i], objects, contains) == Rejected(j);
      }
    }
    r
  }

  lemma ImportRowsSnoc(rows: seq<Row>, row: Row, objects: seq<string>, contains: set<ResidueKey>)
    ensures ImportRows(rows + [row], objects, contains)
      == Absorb(ImportRows(rows, objects, contains), ClassifyRow(row, objects, contains))
  {
    var outcomes := Outcomes(rows + [row], objects, contains);
    assert outcomes[..|rows|] == Outcomes(rows, objects, contains);
  }

  /** A row whose code is not one of the twenty adds exactly one rejection, reporting that
      row, and adds nothing to the accepted residues or the targets. */
  lemma InvalidCodeRejectedOnce(rows: seq<Row>, row: Row, objects: seq<string>, contains: set<ResidueKey>)
    requires |row| >= 2 && Upper(Strip(row[1])) !in AminoAcids
    ensures var before, after := ImportRows(rows, objects, contains), ImportRows(rows + [row], objects, contains);
      && after.found == before.found && after.targets == before.targets
      && after.rejections == before.rejections + [InvalidCode(row, Upper(Strip(row[1])))]
  {
    ImportRowsSnoc(rows, row, objects, contains);
  }

  /** Each row contributes at most one accepted residue or one rejection, never both. */
  lemma OneOutcomePerRow(rows: seq<Row>, row: Row, objects: seq<string>, contains: set<ResidueKey>)
    ensures var before, after := ImportRows(rows, objects, contains), ImportRows(rows + [row], objects, contains);
      && |after.rejections| <= |before.rejections| + 1
      && |after.found - before.found| <= 1
      && (|after.rejections| == |before.rejections| + 1 ==> after.found == before.found && after.targets == before.targets)
      && (after.found != before.found ==> after.rejections == before.rejections)
  {
    ImportRowsSnoc(rows, row, objects, contains);
    var before, after := ImportRows(rows, objects, contains), ImportRows(rows + [row], objects, contains);
    match ClassifyRow(row, objects, contains)
    case Skipped =>
    case Rejected(j) =>
    case Accepted(k, t) =>
      assert after.found - before.found <= {k};
  }

  lemma {:induction false} LastAcceptedWins(outcomes: seq<RowOutcome>, i: nat)
    requires i < |outcomes| && outcomes[i].Accepted?
    requires forall j :: i < j < |outcomes| ==> !(outcomes[j].Accepted? && outcomes[j].key == outcomes[i].key)
    ensures outcomes[i].key in Accumulate(outcomes).targets
    ensures Accumulate(outcomes).targets[outcomes[i].key] == outcomes[i].target
  {
    var n := |outcomes|;
    var init, last := outcomes[..n - 1], outcomes[n - 1];
    var prev := Accumulate(init);
    AccumulateLast(outcomes);
    if i < n - 1 {
      assert init[i] == outcomes[i];
      forall j | i < j < |init| ensures !(init[j].Accepted? && init[j].key == init[i].key) {
        assert init[j] == outcomes[j];
      }
      LastAcceptedWins(init, i);
      AbsorbKeepsTarget(prev, last, outcomes[i].key);
    } else {
      AbsorbEffect(prev, last);
    }
  }

  /** For a residue named by several rows, the target of the last accepting row wins. */
  lemma LastRowWins(rows: seq<Row>, objects: seq<string>, contains: set<ResidueKey>, i: nat)
    requires i < |rows|
    requires var o := Outcomes(rows, objects, contains);
      && o[i].Accepted?
      && forall j :: i < j < |rows| ==> !(o[j].Accepted? && o[j].key == o[i].key)
    ensures var o := Outcomes(rows, objects, contains);
      && o[i].key in ImportRows(rows, objects, contains).targets
      && ImportRows(rows, objects, contains).targets[o[i].key] == o[i].target
  {
    LastAcceptedWins(Outcomes(rows, objects, contains), i);
  }

  /** Every accepted residue is found, whatever the later rows say: rows only add to it. */
  lemma {:induction false} AcceptedIsFound(outcomes: seq<RowOutcome>, i: nat)
    requires i < |outcomes| && outcomes[i].Accepted?
    ensures outcomes[i].key in Accumulate(outcomes).found
  {
    var n := |outcomes|;
    var init, last := outcomes[..n - 1], outcomes[n - 1];
    AccumulateLast(outcomes);
    AbsorbEffect(Accumulate(init), last);
    if i < n - 1 {
      assert init[i] == outcomes[i];
      AcceptedIsFound(init, i);
    }
  }

  /** A row with a valid code and a location of at least two tokens whose residue is first
      held by an object with a non-empty name ends up among the found residues, under that
      object's name. */
  lemma ImportableRowFound(rows: seq<Row>, objects: seq<string>, contains: set<ResidueKey>, i: nat, obj: string)
    requires i < |rows| && |rows[i]| >= 2 && Upper(Strip(rows[i][1])) in AminoAcids
    requires var parts := LocationTokens(Strip(rows[i][0]));
      && |parts| >= 2 && obj != "" && IsFirstContaining(objects, obj, parts[0], parts[1], contains)
    ensures var parts := LocationTokens(Strip(rows[i][0]));
      ResidueKey(obj, parts[0], parts[1]) in ImportRows(rows, objects, contains).found
  {
    var parts := LocationTokens(Strip(rows[i][0]));
    var o := Outcomes(rows, objects, contains);
    ClassifyRowComplete(rows[i], objects, contains);
    assert o[i].Accepted?;
    FirstContainingUnique(objects, obj, o[i].key.model, parts[0], parts[1], contains);
    AcceptedIsFound(o, i);
  }

  // ---------------------------------------------------------------------------
  // The formats the import accepts

  lemma SplitOfSeparated(chain: string, resi: string, sep: char)
    requires chain != [] && resi != [] && NoSpace(chain) && NoSpace(resi)
    requires IsSpace(sep)
    ensures Split(chain + [sep] + resi) == [chain, resi]
  {
    SplitJoinWords([chain, resi]);
    assert JoinWords([chain, resi]) == chain + " " + resi by {
      assert [chain, resi][1..] == [resi];
    }
    var s := chain + [sep] + resi;
    WordLengthOfWord(chain, [sep] + resi);
    assert s == chain + ([sep] + resi);
    assert s[..|chain|] == chain;
    assert s[|chain|..] == [sep] + resi;
    assert ([sep] + resi)[1..] == resi;
    WordLengthOfWord(resi, []);
    assert resi + [] == resi;
    assert resi[|resi|..] == [];
  }

  /** Text without a slash is left alone by the slash replacement. */
  lemma NoSlashUnchanged(s: string)
    requires '/' !in s
    ensures ReplaceSlashes(s) == s
  {
    forall i | 0 <= i < |s| ensures ReplaceSlashes(s)[i] == s[i] {
      assert s[i] in s;
    }
  }

  /** `A/123` reads as `A 123`. */
  lemma SlashReadsAsSpace(chain: string, resi: string)
    requires '/' !in chain && '/' !in resi
    ensures ReplaceSlashes(chain + "/" + resi) == chain + " " + resi
  {
    var a, b := chain + " " + resi, chain + "/" + resi;
    var r := ReplaceSlashes(b);
    forall i | 0 <= i < |b| ensures r[i] == a[i] {
      if i < |chain| {
        assert b[i] == chain[i] == a[i] && chain[i] in chain;
      } else if i > |chain| {
        assert b[i] == resi[i - |chain| - 1] == a[i] && resi[i - |chain| - 1] in resi;
      }
    }
  }

  /** `A 123` and `A/123` both name chain A, residue 123. */
  lemma LocationFormats(chain: string, resi: string)
    requires chain != [] && resi != [] && NoSpace(chain) && NoSpace(resi)
    requires '/' !in chain && '/' !in resi
    ensures LocationTokens(chain + " " + resi) == [chain, resi]
    ensures LocationTokens(chain + "/" + resi) == [chain, resi]
  {
    var a := chain + " " + resi;
    assert '/' !in a;
    NoSlashUnchanged(a);
    SlashReadsAsSpace(chain, resi);
    SplitOfSeparated(chain, resi, ' ');
  }

  lemma StripExamples()
    ensures Strip("A 123") == "A 123" && Strip("ala") == "ala"
  {
    assert LeadingSpaces("A 123") == 0;
    assert TrailingStart("A 123") == 5;
    assert LeadingSpaces("ala") == 0;
    assert TrailingStart("ala") == 3;
  }

  lemma ExampleLocation()
    ensures LocationTokens("A 123") == ["A", "123"]
  {
    assert "A" + " " + "123" == "A 123";
    LocationFormats("A", "123");
  }

  /** Row `A 123,ala` with chain A residue 123 present in object prot1 is accepted as
      (prot1, A, 123) with target ALA. */
  lemma ExampleRowAccepted()
    ensures ClassifyRow(["A 123", "ala"], ["prot1"], {ResidueKey("prot1", "A", "123")})
      == Accepted(ResidueKey("prot1", "A", "123"), "ALA")
  {
    var row := ["A 123", "ala"];
    StripExamples();
    assert Upper("ala") == "ALA";
    assert "ALA" in AminoAcids by { assert AminoAcids[0] == "ALA"; }
    ExampleLocation();
    assert FirstContaining(["prot1"], "A", "123", {ResidueKey("prot1", "A", "123")}) == Some("prot1");
  }
}
