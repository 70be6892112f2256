/** Routines for DNA strings and FASTA files: complementing and reversing a
    string in place, printing a string in FASTA format, and reading the next
    FASTA or quality record.

    A FILE* opened for writing is modelled by the text a call appends to it;
    one opened for reading by its characters together with the index of the
    next character fgetc would return, so ungetc is simply not advancing the
    index. A C string is the sequence of its characters before the
    terminating NUL. */
module Fasta {
  import opened NCodes

  //-- Complement

  // The complement table, indexed by character code, one row of 32 codes per
  // constant. Rows 2 and 3 of the source map the weak base W (A or T) to S;
  // here they map it to itself, as IUPAC pairs it. The rows as written are
  // kept below, with the lemma that shows the difference.
  const ROW0: string := "nnnnnnnnnnnnnnnnnnnnnnnnnnnnnnnn"
  const ROW1: string := " nnnnnnnnn*nn-.nnnnnnnnnnnnnnnnn"
  const ROW2: string := "nTVGHNNCDNNMNKNNNNYSANBWNRNnnnn_"
  const ROW3: string := "ntvghnncdnnmnknnnnysanbwnrnnnnnn"
  const COMPLEMENT_TABLE: string := ROW0 + ROW1 + ROW2 + ROW3

  /** Every character of s has an entry in the table. */
  predicate Ascii(s: seq<char>)
  {
    forall i :: 0 <= i < |s| ==> (s[i] as int) < 128
  }

  /** The IUPAC nucleotide codes other than U, in either case, and the gap
      and padding characters. */
  predicate Paired(c: char)
  {
    c in {'A', 'C', 'G', 'T', 'R', 'Y', 'K', 'M', 'B', 'V', 'D', 'H', 'S', 'W', 'N',
          'a', 'c', 'g', 't', 'r', 'y', 'k', 'm', 'b', 'v', 'd', 'h', 's', 'w', 'n',
          ' ', '*', '-', '.', '_'}
  }

  /** The IUPAC complement of a paired character. */
  function Partner(c: char): (r: char)
    requires Paired(c)
    ensures Paired(r)
  {
    match c
    case 'A' => 'T' case 'T' => 'A' case 'C' => 'G' case 'G' => 'C'
    case 'R' => 'Y' case 'Y' => 'R' case 'K' => 'M' case 'M' => 'K'
    case 'B' => 'V' case 'V' => 'B' case 'D' => 'H' case 'H' => 'D'
    case 'a' => 't' case 't' => 'a' case 'c' => 'g' case 'g' => 'c'
    case 'r' => 'y' case 'y' => 'r' case 'k' => 'm' case 'm' => 'k'
    case 'b' => 'v' case 'v' => 'b' case 'd' => 'h' case 'h' => 'd'
    case _ => c
  }

  /** Entry i of table t, the same value as t[i] (EntryIsIndex). Complement
      looks its result up through this recursive function rather than by a
      plain index so that the 128 characters of the table stay out of the
      proofs of every caller: a caller sees the entry only through the
      contract of Complement. */
  function Entry(t: string, i: nat): char
    requires i < |t|
    decreases i
  {
    if i == 0 then t[0] else Entry(t[1..], i - 1)
  }

  lemma {:induction false} EntryIsIndex(t: string, i: nat)
    requires i < |t|
    ensures Entry(t, i) == t[i]
    decreases i
  {
    if i > 0 {
      EntryIsIndex(t[1..], i - 1);
    }
  }

  lemma {:induction false} Row0At(j: int)
    requires 0 <= j < 32
    ensures ROW0[j] == 'n' && !Paired(j as char)
  {
  }

  lemma {:induction false} Row1At(j: int)
    requires 0 <= j < 32
    ensures ROW1[j] == if j == 0 then ' ' else if j == 10 then '*' else if j == 13 then '-' else if j == 14 then '.' else 'n'
    ensures Paired((j + 32) as char) ==> ROW1[j] == (j + 32) as char
  {
  }

  lemma {:induction false} Row2At(j: int)
    requires 0 <= j < 32
    ensures (ROW2[j] as int) < 128 && ROW2[j] !in "acgt"
    ensures (ROW2[j] == 'T' <==> j == 1) && (ROW2[j] == 'A' <==> j == 20)
    ensures (ROW2[j] == 'G' <==> j == 3) && (ROW2[j] == 'C' <==> j == 7)
  {
  }

  lemma {:induction false} Row2Partner(j: int)
    requires 0 <= j < 32
    ensures Paired((j + 64) as char) ==> ROW2[j] == Partner((j + 64) as char)
  {
  }

  lemma {:induction false} Row3At(j: int)
    requires 0 <= j < 32
    ensures (ROW3[j] as int) < 128 && ROW3[j] !in "ACGT"
    ensures (ROW3[j] == 't' <==> j == 1) && (ROW3[j] == 'a' <==> j == 20)
    ensures (ROW3[j] == 'g' <==> j == 3) && (ROW3[j] == 'c' <==> j == 7)
  {
  }

  lemma {:induction false} Row3Partner(j: int)
    requires 0 <= j < 32
    ensures Paired((j + 96) as char) ==> ROW3[j] == Partner((j + 96) as char)
  {
  }

  /** The facts about table entry i used below. */
  lemma {:induction false} TableAt(i: int)
    requires 0 <= i < 128
    ensures |COMPLEMENT_TABLE| == 128
    ensures var c := COMPLEMENT_TABLE[i];
            (c as int) < 128 &&
            (c == 'T' <==> i == 'A' as int) && (c == 'A' <==> i == 'T' as int) &&
            (c == 'G' <==> i == 'C' as int) && (c == 'C' <==> i == 'G' as int) &&
            (c == 't' <==> i == 'a' as int) && (c == 'a' <==> i == 't' as int) &&
            (c == 'g' <==> i == 'c' as int) && (c == 'c' <==> i == 'g' as int) &&
            (Paired(i as char) ==> c == Partner(i as char))
  {
    if i < 32 {
      Row0At(i);
    } else if i < 64 {
      Row1At(i - 32);
    } else if i < 96 {
      Row2At(i - 64);
      Row2Partner(i - 64);
    } else {
      Row3At(i - 96);
      Row3Partner(i - 96);
    }
  }

  /** The DNA complement of ch: its entry in the table, which covers codes
      below 128 only. */
  function Complement(ch: char): (r: char)
    requires (ch as int) < 128
    ensures (r as int) < 128
  {
    TableAt(ch as int);
    EntryIsIndex(COMPLEMENT_TABLE, ch as int);
    Entry(COMPLEMENT_TABLE, ch as int)
  }

  /** A and T, C and G are each other's complement in either case, and no
      other character complements to one of them; every IUPAC code but U
      complements to its IUPAC partner, and the gap and padding characters
      ' ', '*', '-', '.', '_' to themselves. */
  lemma {:induction false} ComplementBases(ch: char)
    requires (ch as int) < 128
    ensures (ch == 'A' <==> Complement(ch) == 'T') && (ch == 'T' <==> Complement(ch) == 'A')
    ensures (ch == 'C' <==> Complement(ch) == 'G') && (ch == 'G' <==> Complement(ch) == 'C')
    ensures (ch == 'a' <==> Complement(ch) == 't') && (ch == 't' <==> Complement(ch) == 'a')
    ensures (ch == 'c' <==> Complement(ch) == 'g') && (ch == 'g' <==> Complement(ch) == 'c')
    ensures Paired(ch) ==> Complement(ch) == Partner(ch)
  {
    TableAt(ch as int);
    EntryIsIndex(COMPLEMENT_TABLE, ch as int);
  }

  /** Complementing a paired character twice gives it back. */
  lemma {:induction false} ComplementTwice(c: char)
    requires Paired(c)
    ensures (c as int) < 128 && Complement(Complement(c)) == c
  {
    ComplementBases(c);
    ComplementBases(Complement(c));
  }

  //-- The complement table as written

  const ROW2_AS_WRITTEN: string := "nTVGHNNCDNNMNKNNNNYSANBSNRNnnnn_"
  const ROW3_AS_WRITTEN: string := "ntvghnncdnnmnknnnnysanbsnrnnnnnn"
  const TABLE_AS_WRITTEN: string := ROW0 + ROW1 + ROW2_AS_WRITTEN + ROW3_AS_WRITTEN

  /** The complement the source computes. */
  function ComplementAsWritten(ch: char): (r: char)
    requires (ch as int) < 128
    ensures ch != 'W' && ch != 'w' ==> r == Complement(ch)
    ensures ch == 'W' ==> r == 'S'
    ensures ch == 'w' ==> r == 's'
  {
    TableAsWrittenAt(ch as int);
    EntryIsIndex(COMPLEMENT_TABLE, ch as int);
    EntryIsIndex(TABLE_AS_WRITTEN, ch as int);
    Entry(TABLE_AS_WRITTEN, ch as int)
  }

  /** The rows as written differ from the corrected ones at W and w only. */
  lemma {:induction false} RowsAsWrittenAt(j: int)
    requires 0 <= j < 32
    ensures ROW2_AS_WRITTEN[j] == if j == 23 then 'S' else ROW2[j]
    ensures ROW3_AS_WRITTEN[j] == if j == 23 then 's' else ROW3[j]
  {
  }

  /** The written table agrees with the corrected one except at W and w. */
  lemma {:induction false} TableAsWrittenAt(i: int)
    requires 0 <= i < 128
    ensures |TABLE_AS_WRITTEN| == |COMPLEMENT_TABLE| == 128
    ensures TABLE_AS_WRITTEN[i] ==
              if i == 'W' as int then 'S' else if i == 'w' as int then 's' else COMPLEMENT_TABLE[i]
  {
    var head := ROW0 + ROW1;
    assert TABLE_AS_WRITTEN == head + ROW2_AS_WRITTEN + ROW3_AS_WRITTEN;
    assert COMPLEMENT_TABLE == head + ROW2 + ROW3;
    if 64 <= i < 96 {
      RowsAsWrittenAt(i - 64);
    } else if 96 <= i {
      RowsAsWrittenAt(i - 96);
    }
  }

  /** As written, W and S both complement to S, so complementing W twice
      gives S rather than W (and likewise in lower case): the table is not
      the IUPAC pairing that the corrected Complement follows. */
  lemma {:induction false} WeakBaseAsWritten()
    ensures ComplementAsWritten('W') == 'S' && ComplementAsWritten('S') == 'S'
    ensures ComplementAsWritten(ComplementAsWritten('W')) != 'W'
    ensures ComplementAsWritten('w') == 's' && ComplementAsWritten(ComplementAsWritten('w')) != 'w'
  {
    ComplementBases('S');
    ComplementBases('s');
  }

  //-- Reversing

  /** s read backwards. */
  function Reversed(s: seq<char>): (r: seq<char>)
    ensures |r| == |s|
    ensures forall k :: 0 <= k < |s| ==> r[k] == s[|s| - 1 - k]
  {
    if s == [] then [] else Reversed(s[1..]) + [s[0]]
  }

  /** The Watson-Crick reverse complement of s. */
  function ReverseComplementOf(s: seq<char>): (r: seq<char>)
    requires Ascii(s)
    ensures |r| == |s| && Ascii(r)
    ensures forall k :: 0 <= k < |s| ==> r[k] == Complement(s[|s| - 1 - k])
  {
    if s == [] then [] else ReverseComplementOf(s[1..]) + [Complement(s[0])]
  }

  lemma {:induction false} ReversedInvolution(s: seq<char>)
    ensures Reversed(Reversed(s)) == s
  {
    var r := Reversed(Reversed(s));
    forall k | 0 <= k < |s|
      ensures r[k] == s[k]
    {
      assert Reversed(s)[|s| - 1 - k] == s[k];
    }
  }

  /** Taking the reverse complement twice restores a string of bases and gap
      characters. */
  lemma {:induction false} ReverseComplementInvolution(s: seq<char>)
    requires forall i :: 0 <= i < |s| ==> Paired(s[i])
    ensures Ascii(s) && ReverseComplementOf(ReverseComplementOf(s)) == s
  {
    assert Ascii(s);
    var r := ReverseComplementOf(ReverseComplementOf(s));
    forall k | 0 <= k < |s|
      ensures r[k] == s[k]
    {
      assert ReverseComplementOf(s)[|s| - 1 - k] == Complement(s[k]);
      ComplementTwice(s[k]);
    }
  }

  /** Sets s to its reverse complement, swapping from both ends towards the
      middle and complementing a middle character on its own. */
  method ReverseComplement(s: array<char>)
    requires Ascii(s[..])
    modifies s
    ensures s[..] == ReverseComplementOf(old(s[..]))
  {
    ghost var rc := ReverseComplementOf(s[..]);
    var n := s.Length;
    var i, j := 0, n - 1;
    while i < j
      invariant 0 <= i <= j + 1 <= n && j == n - 1 - i
      invariant forall k :: 0 <= k < i ==> s[k] == rc[k]
      invariant forall k :: j < k < n ==> s[k] == rc[k]
      invariant forall k :: i <= k <= j ==> s[k] == old(s[k])
    {
      SwapComplement(s, i, j);
      i, j := i + 1, j - 1;
    }
    if i == j {
      s[i] := Complement(s[i]);
    }
    assert forall k :: 0 <= k < n ==> s[k] == rc[k];
  }

  /** Exchanges s[i] and s[j], complementing both. */
  method SwapComplement(s: array<char>, i: nat, j: nat)
    requires i < j < s.Length && (s[i] as int) < 128 && (s[j] as int) < 128
    modifies s
    ensures s[i] == Complement(old(s[j])) && s[j] == Complement(old(s[i]))
    ensures forall k :: 0 <= k < s.Length && k != i && k != j ==> s[k] == old(s[k])
  {
    var ch := s[j];
    s[j] := Complement(s[i]);
    s[i] := Complement(ch);
  }

  /** Reverses the order of the characters of s in place. */
  method ReverseString(s: array<char>)
    modifies s
    ensures s[..] == Reversed(old(s[..]))
  {
    var n := s.Length;
    var i, j := 0, n - 1;
    while i < j
      invariant 0 <= i <= j + 1 <= n && j == n - 1 - i
      invariant forall k :: 0 <= k < i ==> s[k] == old(s[n - 1 - k])
      invariant forall k :: j < k < n ==> s[k] == old(s[n - 1 - k])
      invariant forall k :: i <= k <= j ==> s[k] == old(s[k])
    {
      var ch := s[i];
      s[i] := s[j];
      s[j] := ch;
      i, j := i + 1, j - 1;
    }
  }

  //-- Printing

  /** Whether the printer starts a new line before the i-th printed
      character: its line counter starts at 0, and a line break is written
      and the counter reset when the counter equals the width. */
  predicate BreakBefore(i: nat, width: int)
  {
    if width > 0 then i > 0 && i % width == 0 else width == 0 && i == 0
  }

  /** The line counter before the i-th printed character. */
  function Column(i: nat, width: int): nat
  {
    if width > 0 && i > 0 then (i - 1) % width + 1 else i
  }

  /** The counter reaches the width exactly before a line break, and one
      character later it is one more, or 1 after a break. */
  lemma {:induction false} ColumnStep(i: nat, width: int)
    ensures Column(i, width) == width <==> BreakBefore(i, width)
    ensures Column(i + 1, width) == (if Column(i, width) == width then 0 else Column(i, width)) + 1
  {
    if width > 0 && i > 0 {
      ModSucc(i, width);
    } else if width > 0 {
      ModUnique(0, width, 0, 0);
    }
  }

  lemma {:induction false} ModUnique(x: int, w: int, q: int, r: int)
    requires w > 0 && 0 <= r < w && x == q * w + r
    ensures x % w == r && x / w == q
  {
    var q', r' := x / w, x % w;
    assert (q - q') * w == r' - r;
    if q > q' {
      MulAtLeast(q - q', w);
    } else if q < q' {
      MulAtLeast(q' - q, w);
    }
  }

  lemma {:induction false} MulAtLeast(a: int, w: int)
    requires a >= 1 && w > 0
    ensures a * w >= w
  {
    assert a * w == w + (a - 1) * w;
  }

  /** The remainder of i by w is one more than that of i - 1, or 0 after
      w - 1. */
  lemma {:induction false} ModSucc(i: int, w: int)
    requires w > 0
    ensures i % w == if (i - 1) % w == w - 1 then 0 else (i - 1) % w + 1
  {
    var q, r := (i - 1) / w, (i - 1) % w;
    if r == w - 1 {
      assert i == (q + 1) * w + 0;
      ModUnique(i, w, q + 1, 0);
    } else {
      assert i == q * w + (r + 1);
      ModUnique(i, w, q, r + 1);
    }
  }

  /** The characters of s with the printer's line breaks among them. */
  function Layout(s: string, width: int): string
  {
    if s == [] then []
    else Layout(s[..|s| - 1], width) + (if BreakBefore(|s| - 1, width) then "\n" else "") + [s[|s| - 1]]
  }

  /** The header line ">hdr", or nothing for a NULL header. */
  function HeaderLine(hdr: Option<string>): string
  {
    match hdr
    case None => []
    case Some(h) => ">" + h + "\n"
  }

  /** What the printers write for the characters s. */
  function FastaText(hdr: Option<string>, s: string, width: int): string
  {
    HeaderLine(hdr) + Layout(s, width) + "\n"
  }

  /** s cut into lines of width characters, the last line holding the rest. */
  function Lines(s: string, width: int): (t: string)
    requires width > 0
    decreases |s|
  {
    if |s| <= width then s else s[..width] + "\n" + Lines(s[width..], width)
  }

  /** s without the characters that occur in skip. */
  function Omit(s: string, skip: string): (r: string)
    ensures |r| <= |s|
    ensures forall i :: 0 <= i < |r| ==> r[i] !in skip
  {
    if s == [] then []
    else Omit(s[..|s| - 1], skip) + (if s[|s| - 1] in skip then [] else [s[|s| - 1]])
  }

  lemma {:induction false} OmitAppend(a: string, b: string, skip: string)
    ensures Omit(a + b, skip) == Omit(a, skip) + Omit(b, skip)
    decreases |b|
  {
    if b != [] {
      assert (a + b)[..|a + b| - 1] == a + b[..|b| - 1];
      OmitAppend(a, b[..|b| - 1], skip);
    } else {
      assert a + b == a;
    }
  }

  /** Omitting characters that s does not contain leaves s. */
  lemma {:induction false} OmitNone(s: string, skip: string)
    requires forall i :: 0 <= i < |s| ==> s[i] !in skip
    ensures Omit(s, skip) == s
  {
    if s != [] {
      OmitNone(s[..|s| - 1], skip);
    }
  }

  /** Below the width no line break is inserted. */
  lemma {:induction false} LayoutShort(s: string, width: int)
    requires 0 < |s| <= width
    ensures Layout(s, width) == s
    decreases |s|
  {
    var n := |s| - 1;
    assert s == s[..n] + [s[n]];
    ModUnique(n, width, 0, n);
    assert !BreakBefore(n, width);
    if n > 0 {
      LayoutShort(s[..n], width);
    }
  }

  /** After a whole number of full lines the layout of the rest starts on a
      fresh line. */
  lemma {:induction false} LayoutSplit(p: string, t: string, width: int)
    requires width > 0 && p != [] && |p| % width == 0 && t != []
    ensures Layout(p + t, width) == Layout(p, width) + "\n" + Layout(t, width)
    decreases |t|
  {
    var pt := p + t;
    var last := t[|t| - 1];
    assert pt[..|pt| - 1] == p + t[..|t| - 1];
    ModShift(|p|, |t| - 1, width);
    if |t| == 1 {
      assert p + t[..|t| - 1] == p;
    } else {
      LayoutSplit(p, t[..|t| - 1], width);
    }
  }

  lemma {:induction false} ModShift(a: nat, b: nat, width: int)
    requires width > 0 && a % width == 0
    ensures (a + b) % width == b % width
  {
    var q, q2, r2 := a / width, b / width, b % width;
    assert a + b == (q + q2) * width + r2;
    ModUnique(a + b, width, q + q2, r2);
  }

  /** For a positive width the printer writes s in lines of exactly width
      characters, the last line holding the remaining 1 to width. */
  lemma {:induction false} LayoutLines(s: string, width: int)
    requires width > 0
    ensures Layout(s, width) == Lines(s, width)
    decreases |s|
  {
    if s == [] {
    } else if |s| <= width {
      LayoutShort(s, width);
    } else {
      assert s == s[..width] + s[width..];
      LayoutSplit(s[..width], s[width..], width);
      LayoutShort(s[..width], width);
      LayoutLines(s[width..], width);
    }
  }

  /** Removing the inserted line breaks gives back a string without line
      breaks. */
  lemma {:induction false} LayoutOmitBreaks(s: string, width: int)
    requires '\n' !in s
    ensures Omit(Layout(s, width), "\n") == s
    decreases |s|
  {
    if s != [] {
      var init, c := s[..|s| - 1], s[|s| - 1];
      assert s == init + [c];
      var brk: string := if BreakBefore(|s| - 1, width) then "\n" else "";
      assert Layout(s, width) == Layout(init, width) + brk + [c];
      LayoutOmitBreaks(init, width);
      OmitBreakStep(Layout(init, width), brk, c);
    }
  }

  lemma {:induction false} OmitBreakStep(a: string, brk: string, c: char)
    requires brk == [] || brk == "\n"
    requires c != '\n'
    ensures Omit(a + brk + [c], "\n") == Omit(a, "\n") + [c]
  {
    var ab := a + brk;
    assert (ab + [c])[..|ab|] == ab;
    assert Omit(ab + [c], "\n") == Omit(ab, "\n") + [c];
    OmitAppend(a, brk, "\n");
    OmitBreak(brk);
  }

  lemma {:induction false} OmitBreak(brk: string)
    requires brk == [] || brk == "\n"
    ensures Omit(brk, "\n") == []
  {
    if brk != [] {
      assert brk[..0] == [];
    }
  }

  /** Prints s in FASTA format: the header line unless hdr is NULL, then s
      with a line break before a character whenever width characters have
      filled the line, then a final line break. */
  method FastaPrint(s: string, hdr: Option<string>, width: int) returns (out: string)
    ensures out == FastaText(hdr, s, width)
  {
    out := HeaderLine(hdr);
    var ct := 0;
    var i := 0;
    while i < |s|
      invariant 0 <= i <= |s|
      invariant out == HeaderLine(hdr) + Layout(s[..i], width)
      invariant ct == Column(i, width)
    {
      ColumnStep(i, width);
      if ct == width {
        out := out + "\n";
        ct := 0;
      }
      out := out + [s[i]];
      assert s[..i + 1][..i] == s[..i];
      i := i + 1;
      ct := ct + 1;
    }
    assert s[..i] == s;
    out := out + "\n";
  }

  /** Prints the first n characters of s in FASTA format; nothing of s for a
      negative n. */
  method FastaPrintN(s: string, n: int, hdr: Option<string>, width: int) returns (out: string)
    requires n <= |s|
    ensures n >= 0 ==> out == FastaText(hdr, s[..n], width)
    ensures n < 0 ==> out == FastaText(hdr, [], width)
  {
    out := HeaderLine(hdr);
    var ct := 0;
    var i := 0;
    while i < n
      invariant 0 <= i <= |s| && i <= (if n >= 0 then n else 0)
      invariant out == HeaderLine(hdr) + Layout(s[..i], width)
      invariant ct == Column(i, width)
    {
      ColumnStep(i, width);
      if ct == width {
        out := out + "\n";
        ct := 0;
      }
      out := out + [s[i]];
      assert s[..i + 1][..i] == s[..i];
      i := i + 1;
      ct := ct + 1;
    }
    assert s[..i] == if n >= 0 then s[..n] else [];
    out := out + "\n";
  }

  /** Prints s in FASTA format leaving out every character that occurs in
      skip; the line width counts printed characters only. */
  method FastaPrintSkip(s: string, skip: string, hdr: Option<string>, width: int) returns (out: string)
    ensures out == FastaText(hdr, Omit(s, skip), width)
  {
    out := HeaderLine(hdr);
    var ct := 0;
    var i := 0;
    ghost var done: string := [];
    while i < |s|
      invariant 0 <= i <= |s|
      invariant done == Omit(s[..i], skip)
      invariant out == HeaderLine(hdr) + Layout(done, width)
      invariant ct == Column(|done|, width)
    {
      SkipStep(s, i, skip, width);
      ColumnStep(|done|, width);
      if s[i] !in skip {
        if ct == width {
          out := out + "\n";
          ct := 0;
        }
        out := out + [s[i]];
        ct := ct + 1;
        done := Omit(s[..i + 1], skip);
      }
      i := i + 1;
    }
    assert s[..i] == s;
    out := out + "\n";
  }

  /** One more character of s either is skipped or extends the layout. */
  lemma {:induction false} SkipStep(s: string, i: nat, skip: string, width: int)
    requires i < |s|
    ensures s[i] in skip ==> Omit(s[..i + 1], skip) == Omit(s[..i], skip)
    ensures s[i] !in skip ==>
              |Omit(s[..i + 1], skip)| == |Omit(s[..i], skip)| + 1 &&
              Layout(Omit(s[..i + 1], skip), width)
              == Layout(Omit(s[..i], skip), width) + (if BreakBefore(|Omit(s[..i], skip)|, width) then "\n" else "") + [s[i]]
  {
    assert s[..i + 1][..i] == s[..i];
    if s[i] !in skip {
      LayoutSnoc(Omit(s[..i], skip), s[i], width);
    }
  }

  /** Printing one more character appends it, after a line break when the
      line is full. */
  lemma {:induction false} LayoutSnoc(t: string, c: char, width: int)
    ensures Layout(t + [c], width) == Layout(t, width) + (if BreakBefore(|t|, width) then "\n" else "") + [c]
  {
    assert (t + [c])[..|t|] == t;
  }

  /** With nothing to skip the skipping printer prints what the plain one
      does. */
  lemma {:induction false} PrintSkipNothing(s: string, skip: string, hdr: Option<string>, width: int)
    requires forall i :: 0 <= i < |s| ==> s[i] !in skip
    ensures FastaText(hdr, Omit(s, skip), width) == FastaText(hdr, s, width)
  {
    OmitNone(s, skip);
  }

  //-- Reading

  /** isspace in the C locale. */
  predicate IsSpace(c: char)
  {
    c == ' ' || ('\t' <= c <= '\r')
  }

  /** isdigit. */
  predicate IsDigit(c: char)
  {
    '0' <= c <= '9'
  }

  /** The first index at or after i holding c, or |t| when there is none. */
  function IndexOf(t: string, i: nat, c: char): (k: nat)
    requires i <= |t|
    ensures i <= k <= |t|
    ensures forall m :: i <= m < k ==> t[m] != c
    ensures k < |t| ==> t[k] == c
    decreases |t| - i
  {
    if i == |t| || t[i] == c then i else IndexOf(t, i + 1, c)
  }

  /** The first index at or after i not holding a blank, or |t|. */
  function SkipBlanks(t: string, i: nat): (k: nat)
    requires i <= |t|
    ensures i <= k <= |t|
    ensures forall m :: i <= m < k ==> t[m] == ' '
    ensures k < |t| ==> t[k] != ' '
    decreases |t| - i
  {
    if i == |t| || t[i] != ' ' then i else SkipBlanks(t, i + 1)
  }

  /** The characters of t that are not white space. */
  function Squeeze(t: string): string
  {
    if t == [] then [] else Squeeze(t[..|t| - 1]) + (if IsSpace(t[|t| - 1]) then [] else [t[|t| - 1]])
  }

  /** No white space survives squeezing. */
  lemma {:induction false} SqueezeNoSpace(t: string)
    ensures forall i :: 0 <= i < |Squeeze(t)| ==> !IsSpace(Squeeze(t)[i])
    decreases |t|
  {
    if t != [] {
      SqueezeNoSpace(t[..|t| - 1]);
    }
  }

  /** One more character is kept unless it is white space. */
  lemma {:induction false} SqueezeSnoc(t: string, c: char)
    ensures Squeeze(t + [c]) == Squeeze(t) + (if IsSpace(c) then [] else [c])
  {
    assert (t + [c])[..|t|] == t;
  }

  lemma {:induction false} SqueezeAppend(a: string, b: string)
    ensures Squeeze(a + b) == Squeeze(a) + Squeeze(b)
    decreases |b|
  {
    if b != [] {
      assert (a + b)[..|a + b| - 1] == a + b[..|b| - 1];
      SqueezeAppend(a, b[..|b| - 1]);
    } else {
      assert a + b == a;
    }
  }

  /** Where the header of the next record begins, skipping everything up to
      the next '>' and the blanks after it, and the start of the line after
      the header. None when the input ends before the header does start. */
  function ParseHeader(input: string, pos: nat): (r: Option<(string, nat)>)
    requires pos <= |input|
    ensures r.Some? ==> pos < r.value.1 <= |input| && '\n' !in r.value.0
  {
    var g := IndexOf(input, pos, '>');
    if g == |input| then None
    else
      var h := SkipBlanks(input, g + 1);
      if h == |input| then None
      else
        var l := IndexOf(input, h, '\n');
        assert forall c :: c in input[h..l] ==> c != '\n';
        Some((input[h..l], if l < |input| then l + 1 else l))
  }

  /** The outcome of reading one record: whether one was found, its data,
      its header, and the index of the next unread character. */
  datatype ReadResult = ReadResult(found: bool, data: string, hdr: string, next: nat)

  /** The next FASTA record from index pos on: the non-space characters up to
      the next '>' or the end of the input, the '>' being left unread. */
  function ParseFasta(input: string, pos: nat): (r: ReadResult)
    requires pos <= |input|
    ensures r.next <= |input|
    ensures !r.found ==> r == ReadResult(false, [], [], |input|)
    ensures r.found ==> (r.next == |input| || input[r.next] == '>')
    ensures forall i :: 0 <= i < |r.data| ==> !IsSpace(r.data[i])
  {
    match ParseHeader(input, pos)
    case None => ReadResult(false, [], [], |input|)
    case Some((hdr, b)) =>
      var m := IndexOf(input, b, '>');
      SqueezeNoSpace(input[b..m]);
      ReadResult(true, Squeeze(input[b..m]), hdr, m)
  }

  /** Advances from i to the first c, or to the end of the input. */
  method ScanTo(input: string, i: nat, c: char) returns (k: nat)
    requires i <= |input|
    ensures k == IndexOf(input, i, c)
  {
    k := i;
    while k < |input| && input[k] != c
      invariant i <= k <= |input|
      invariant IndexOf(input, i, c) == IndexOf(input, k, c)
    {
      k := k + 1;
    }
  }

  /** Advances from i past blanks. */
  method ScanBlanks(input: string, i: nat) returns (k: nat)
    requires i <= |input|
    ensures k == SkipBlanks(input, i)
  {
    k := i;
    while k < |input| && input[k] == ' '
      invariant i <= k <= |input|
      invariant SkipBlanks(input, i) == SkipBlanks(input, k)
    {
      k := k + 1;
    }
  }

  /** The header part of both readers: skips to the next '>', then the blanks
      after it, and takes the rest of the line as the header. */
  method ReadHeader(input: string, pos: nat) returns (found: bool, hdr: string, p: nat)
    requires pos <= |input|
    ensures p <= |input|
    ensures found <==> ParseHeader(input, pos).Some?
    ensures found ==> (hdr, p) == ParseHeader(input, pos).value
    ensures !found ==> hdr == [] && p == |input|
  {
    hdr := [];
    p := ScanTo(input, pos, '>');
    if p == |input| {
      return false, [], p;
    }
    p := ScanBlanks(input, p + 1);
    if p == |input| {
      return false, [], p;
    }
    ghost var h := p;
    while p < |input| && input[p] != '\n'
      invariant h <= p <= |input|
      invariant hdr == input[h..p]
      invariant forall m :: h <= m < p ==> input[m] != '\n'
    {
      hdr := hdr + [input[p]];
      p := p + 1;
    }
    if p < |input| {
      p := p + 1;
    }
    found := true;
  }

  /** Reads the next FASTA record: false when the input ends before a '>' or
      before a non-blank character after it; otherwise the header is the rest
      of that line after its leading blanks, the data every non-space
      character up to the next '>', which stays unread. */
  method FastaRead(input: string, pos: nat) returns (found: bool, s: string, hdr: string, next: nat)
    requires pos <= |input|
    ensures ReadResult(found, s, hdr, next) == ParseFasta(input, pos)
  {
    s := [];
    found, hdr, next := ReadHeader(input, pos);
    if found {
      s, next := ReadData(input, next);
    }
  }

  /** Takes every non-space character from b up to the next '>'. */
  method ReadData(input: string, b: nat) returns (s: string, next: nat)
    requires b <= |input|
    ensures next == IndexOf(input, b, '>') && s == Squeeze(input[b..next])
  {
    s := [];
    next := b;
    while next < |input| && input[next] != '>'
      invariant b <= next <= |input|
      invariant IndexOf(input, b, '>') == IndexOf(input, next, '>')
      invariant s == Squeeze(input[b..next])
    {
      assert input[b..next + 1] == input[b..next] + [input[next]];
      SqueezeSnoc(input[b..next], input[next]);
      if !IsSpace(input[next]) {
        s := s + [input[next]];
      }
      next := next + 1;
    }
  }

  /** A record the printer wrote is read back whole: the header, the data
      without its line breaks, and the reader stops where the next record
      begins. */
  lemma {:induction false} FastaReadAfterPrint(hdr: string, s: string, width: int, rest: string)
    requires '\n' !in hdr && (hdr == [] || hdr[0] != ' ')
    requires forall i :: 0 <= i < |s| ==> !IsSpace(s[i]) && s[i] != '>'
    requires rest == [] || rest[0] == '>'
    ensures var text := FastaText(Some(hdr), s, width);
            ParseFasta(text + rest, 0) == ReadResult(true, s, hdr, |text|)
  {
    var body := Layout(s, width) + "\n";
    assert FastaText(Some(hdr), s, width) + rest == ">" + hdr + "\n" + body + rest;
    PrintedBody(s, width);
    ParseFastaRecord(hdr, body, rest);
  }

  /** The body the printer writes holds no '>' and its non-space characters
      are the sequence. */
  lemma {:induction false} PrintedBody(s: string, width: int)
    requires forall i :: 0 <= i < |s| ==> !IsSpace(s[i]) && s[i] != '>'
    ensures var body := Layout(s, width) + "\n";
            (forall i :: 0 <= i < |body| ==> body[i] != '>') && Squeeze(body) == s
  {
    LayoutChars(s, width, '>');
    SqueezeBody(s, width);
  }

  /** A record of a header line and a body without '>' is read as the
      header and the non-space characters of the body. */
  lemma {:induction false} ParseFastaRecord(hdr: string, body: string, rest: string)
    requires '\n' !in hdr && (hdr == [] || hdr[0] != ' ')
    requires forall i :: 0 <= i < |body| ==> body[i] != '>'
    requires rest == [] || rest[0] == '>'
    ensures var head := ">" + hdr + "\n";
            ParseFasta(head + body + rest, 0) == ReadResult(true, Squeeze(body), hdr, |head| + |body|)
  {
    var head := ">" + hdr + "\n";
    var input := head + body + rest;
    assert input == head + (body + rest);
    HeaderRoundTrip(hdr, body + rest);
    assert ParseHeader(input, 0) == Some((hdr, |head|));
    BodyExtent(head, body, rest, '>');
    ParseFastaFound(input, 0, hdr, |head|);
  }

  /** Once the header is found the data runs up to the next '>'. */
  lemma {:induction false} ParseFastaFound(input: string, pos: nat, hdr: string, b: nat)
    requires pos <= |input| && ParseHeader(input, pos) == Some((hdr, b))
    ensures b <= IndexOf(input, b, '>')
    ensures ParseFasta(input, pos) == ReadResult(true, Squeeze(input[b..IndexOf(input, b, '>')]), hdr, IndexOf(input, b, '>'))
  {
  }

  /** Searching from the start of body for a character that body lacks
      stops where rest begins, provided rest begins with it or is empty. */
  lemma {:induction false} BodyExtent(head: string, body: string, rest: string, c: char)
    requires forall i :: 0 <= i < |body| ==> body[i] != c
    requires rest == [] || rest[0] == c
    ensures var input := head + body + rest;
            IndexOf(input, |head|, c) == |head| + |body| &&
            input[|head|..|head| + |body|] == body
  {
    var input := head + body + rest;
    var m := IndexOf(input, |head|, c);
    forall k | |head| <= k < |head| + |body|
      ensures input[k] != c
    {
      assert input[k] == body[k - |head|];
    }
    if rest != [] {
      assert input[|head| + |body|] == c;
    }
  }

  /** Squeezing what the printer wrote for s gives s back. */
  lemma {:induction false} SqueezeBody(s: string, width: int)
    requires forall i :: 0 <= i < |s| ==> !IsSpace(s[i])
    ensures Squeeze(Layout(s, width) + "\n") == s
  {
    SqueezeAppend(Layout(s, width), "\n");
    assert Squeeze("\n") == [] by {
      assert ("\n")[..0] == [];
    }
    SqueezeLayout(s, width);
  }

  /** A header line written by the printer is parsed back. */
  lemma {:induction false} HeaderRoundTrip(hdr: string, body: string)
    requires '\n' !in hdr && (hdr == [] || hdr[0] != ' ')
    ensures ParseHeader(">" + hdr + "\n" + body, 0) == Some((hdr, |hdr| + 2))
  {
    var input := ">" + hdr + "\n" + body;
    assert IndexOf(input, 0, '>') == 0;
    assert SkipBlanks(input, 1) == 1;
    var l := IndexOf(input, 1, '\n');
    assert input[|hdr| + 1] == '\n';
    assert l == |hdr| + 1 by {
      forall k | 1 <= k < |hdr| + 1
        ensures input[k] != '\n'
      {
        assert input[k] == hdr[k - 1];
      }
    }
    assert input[1..l] == hdr;
  }

  /** The layout holds no character other than line breaks that s does not
      hold. */
  lemma {:induction false} LayoutChars(s: string, width: int, c: char)
    requires c != '\n' && forall i :: 0 <= i < |s| ==> s[i] != c
    ensures forall i :: 0 <= i < |Layout(s, width)| ==> Layout(s, width)[i] != c
    decreases |s|
  {
    if s != [] {
      LayoutChars(s[..|s| - 1], width, c);
    }
  }

  /** Squeezing the layout of a string without white space gives it back. */
  lemma {:induction false} SqueezeLayout(s: string, width: int)
    requires forall i :: 0 <= i < |s| ==> !IsSpace(s[i])
    ensures Squeeze(Layout(s, width)) == s
    decreases |s|
  {
    if s != [] {
      var init, c := s[..|s| - 1], s[|s| - 1];
      assert s == init + [c];
      var brk: string := if BreakBefore(|s| - 1, width) then "\n" else "";
      assert Layout(s, width) == Layout(init, width) + brk + [c];
      SqueezeLayout(init, width);
      SqueezeStep(Layout(init, width), brk, c);
    }
  }

  lemma {:induction false} SqueezeStep(a: string, brk: string, c: char)
    requires brk == [] || brk == "\n"
    requires !IsSpace(c)
    ensures Squeeze(a + brk + [c]) == Squeeze(a) + [c]
  {
    SqueezeAppend(a, brk);
    SqueezeAppend(a + brk, [c]);
    assert Squeeze(brk) == [] by {
      if brk != [] {
        assert brk[..0] == [];
      }
    }
    assert Squeeze([c]) == [c] by {
      assert [c][..0] == [];
    }
  }

  //-- Reading quality values

  /** The character that encodes quality value val: C's char conversion of
      val + minQuality, that is, its value modulo 256. */
  function QualCode(val: int, minQuality: int): char
  {
    ((val + minQuality) % 256) as char
  }

  /** The state of the quality scanner: the codes emitted so far, whether a
      number is being read, and its value so far. */
  datatype ScanState = ScanState(q: string, have: bool, val: int)

  /** Scans t: a white-space character ends the number being read, emitting
      its code; a digit extends it; any other character is ignored. */
  function QualScan(t: string, minQuality: int): ScanState
  {
    if t == [] then ScanState([], false, 0)
    else
      var st := QualScan(t[..|t| - 1], minQuality);
      var ch := t[|t| - 1];
      if IsSpace(ch) then
        ScanState(if st.have then st.q + [QualCode(st.val, minQuality)] else st.q, false, 0)
      else if IsDigit(ch) then
        ScanState(st.q, true, 10 * st.val + (ch as int - '0' as int))
      else st
  }

  /** The next quality record from index pos on. */
  function ParseQual(input: string, pos: nat, minQuality: int): (r: ReadResult)
    requires pos <= |input|
    ensures r.next <= |input|
    ensures !r.found ==> r == ReadResult(false, [], [], |input|)
    ensures r.found ==> (r.next == |input| || input[r.next] == '>')
  {
    match ParseHeader(input, pos)
    case None => ReadResult(false, [], [], |input|)
    case Some((hdr, b)) =>
      var m := IndexOf(input, b, '>');
      ReadResult(true, QualScan(input[b..m], minQuality).q, hdr, m)
  }

  /** Reads the next quality record: the header as FastaRead does, then the
      code of every number up to the next '>' that white space ends, encoded
      by adding minQuality. A number that '>' or the end of the input cuts
      short is dropped. */
  method FastaQualRead(input: string, pos: nat, minQuality: int) returns (found: bool, q: string, hdr: string, next: nat)
    requires pos <= |input|
    ensures ReadResult(found, q, hdr, next) == ParseQual(input, pos, minQuality)
  {
    q := [];
    found, hdr, next := ReadHeader(input, pos);
    if found {
      q, next := ReadValues(input, next, minQuality);
    }
  }

  /** Scans the numbers from b up to the next '>'. */
  method ReadValues(input: string, b: nat, minQuality: int) returns (q: string, next: nat)
    requires b <= |input|
    ensures next == IndexOf(input, b, '>') && q == QualScan(input[b..next], minQuality).q
  {
    q := [];
    next := b;
    var haveValue := false;
    var val := 0;
    while next < |input| && input[next] != '>'
      invariant b <= next <= |input|
      invariant IndexOf(input, b, '>') == IndexOf(input, next, '>')
      invariant ScanState(q, haveValue, val) == QualScan(input[b..next], minQuality)
    {
      assert input[b..next + 1] == input[b..next] + [input[next]];
      var ch := input[next];
      if IsSpace(ch) {
        if haveValue {
          q := q + [QualCode(val, minQuality)];
        }
        haveValue := false;
        val := 0;
      } else if IsDigit(ch) {
        haveValue := true;
        val := 10 * val + (ch as int - '0' as int);
      }
      next := next + 1;
    }
  }

  /** The decimal digits of v. */
  function Decimal(v: nat): (d: string)
    ensures |d| >= 1 && forall i :: 0 <= i < |d| ==> IsDigit(d[i])
  {
    if v < 10 then [('0' as int + v) as char]
    else Decimal(v / 10) + [('0' as int + v % 10) as char]
  }

  /** Quality values written as decimal numbers, each followed by a blank. */
  function Render(vals: seq<nat>): (t: string)
    ensures forall i :: 0 <= i < |t| ==> IsDigit(t[i]) || t[i] == ' '
  {
    if vals == [] then []
    else Render(vals[..|vals| - 1]) + Decimal(vals[|vals| - 1]) + " "
  }

  /** The codes of quality values. */
  function Codes(vals: seq<nat>, minQuality: int): (q: string)
    ensures |q| == |vals|
    ensures forall i :: 0 <= i < |vals| ==> q[i] == QualCode(vals[i], minQuality)
  {
    if vals == [] then [] else Codes(vals[..|vals| - 1], minQuality) + [QualCode(vals[|vals| - 1], minQuality)]
  }

  /** Scanning the digits of v after a finished number leaves v pending. */
  lemma {:induction false} ScanDecimal(p: string, v: nat, minQuality: int)
    requires !QualScan(p, minQuality).have && QualScan(p, minQuality).val == 0
    ensures QualScan(p + Decimal(v), minQuality) == ScanState(QualScan(p, minQuality).q, true, v)
    decreases v
  {
    var t := p + Decimal(v);
    if v < 10 {
      assert t[..|t| - 1] == p;
    } else {
      assert t[..|t| - 1] == p + Decimal(v / 10);
      ScanDecimal(p, v / 10, minQuality);
    }
  }

  /** Scanning rendered values emits the code of every value. */
  lemma {:induction false} ScanRender(vals: seq<nat>, minQuality: int)
    ensures QualScan(Render(vals), minQuality) == ScanState(Codes(vals, minQuality), false, 0)
    decreases |vals|
  {
    if vals != [] {
      var init := vals[..|vals| - 1];
      var v := vals[|vals| - 1];
      ScanRender(init, minQuality);
      ScanDecimal(Render(init), v, minQuality);
      var t := Render(vals);
      assert t[..|t| - 1] == Render(init) + Decimal(v);
    }
  }

  /** A last number that no white space ends is not emitted. */
  lemma {:induction false} ScanUnterminated(vals: seq<nat>, v: nat, minQuality: int)
    ensures QualScan(Render(vals) + Decimal(v), minQuality).q == Codes(vals, minQuality)
  {
    ScanRender(vals, minQuality);
    ScanDecimal(Render(vals), v, minQuality);
  }

  /** A quality record of blank-terminated decimal values is read back as
      their codes, and the reader stops where the next record begins. */
  lemma {:induction false} QualReadAfterRender(hdr: string, vals: seq<nat>, minQuality: int, rest: string)
    requires '\n' !in hdr && (hdr == [] || hdr[0] != ' ')
    requires rest == [] || rest[0] == '>'
    ensures var text := ">" + hdr + "\n" + Render(vals);
            ParseQual(text + rest, 0, minQuality) == ReadResult(true, Codes(vals, minQuality), hdr, |text|)
  {
    ScanRender(vals, minQuality);
    ParseQualRecord(hdr, Render(vals), minQuality, rest);
  }

  /** A record of a header line and a body without '>' is read as the
      header and the codes the scan of the body emits. */
  lemma {:induction false} ParseQualRecord(hdr: string, body: string, minQuality: int, rest: string)
    requires '\n' !in hdr && (hdr == [] || hdr[0] != ' ')
    requires forall i :: 0 <= i < |body| ==> body[i] != '>'
    requires rest == [] || rest[0] == '>'
    ensures var head := ">" + hdr + "\n";
            ParseQual(head + body + rest, 0, minQuality)
            == ReadResult(true, QualScan(body, minQuality).q, hdr, |head| + |body|)
  {
    var head := ">" + hdr + "\n";
    var input := head + body + rest;
    assert input == head + (body + rest);
    HeaderRoundTrip(hdr, body + rest);
    assert ParseHeader(input, 0) == Some((hdr, |head|));
    BodyExtent(head, body, rest, '>');
    ParseQualFound(input, 0, minQuality, hdr, |head|);
  }

  /** Once the header is found the values run up to the next '>'. */
  lemma {:induction false} ParseQualFound(input: string, pos: nat, minQuality: int, hdr: string, b: nat)
    requires pos <= |input| && ParseHeader(input, pos) == Some((hdr, b))
    ensures b <= IndexOf(input, b, '>')
    ensures ParseQual(input, pos, minQuality)
            == ReadResult(true, QualScan(input[b..IndexOf(input, b, '>')], minQuality).q, hdr, IndexOf(input, b, '>'))
  {
  }
}
