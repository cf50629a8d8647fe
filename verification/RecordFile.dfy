/** The length-prefixed lines of studios/studio16: appendfile_count.c appends one record per run,
    readfile.c reads them back. A file is the string of its bytes. */
module RecordFile {
  // ---- Decimal numbers ----

  function Digit(d: nat): char
    requires d < 10
  {
    '0' + d as char
  }

  /** printf with "%lu": digits, without a leading zero. */
  function Decimal(n: nat): (s: string)
    ensures |s| >= 1 && (n < 10 ==> |s| == 1)
    ensures s[0] == '0' <==> n == 0
  {
    if n < 10 then [Digit(n)] else Decimal(n / 10) + [Digit(n % 10)]
  }

  /** What `getLineLen` makes of the characters up to the space, digits or not. */
  function FieldValue(s: string): int {
    if s == "" then 0 else FieldValue(s[..|s| - 1]) * 10 + (s[|s| - 1] as int - '0' as int)
  }

  lemma {:induction false} DecimalRoundTrip(n: nat)
    ensures FieldValue(Decimal(n)) == n
    ensures forall i :: 0 <= i < |Decimal(n)| ==> '0' <= Decimal(n)[i] <= '9'
  {
    if n >= 10 {
      DecimalRoundTrip(n / 10);
      assert Decimal(n)[..|Decimal(n)| - 1] == Decimal(n / 10);
    } else {
      assert Decimal(n)[..0] == "";
    }
  }

  predicate IsNumeral(s: string) {
    && s != "" && (forall i :: 0 <= i < |s| ==> '0' <= s[i] <= '9')
    && (s[0] == '0' ==> |s| == 1)
  }

  lemma {:induction false} NumeralValue(s: string)
    requires IsNumeral(s)
    ensures FieldValue(s) >= 0 && (|s| > 1 ==> FieldValue(s) >= 10)
  {
    if |s| == 1 {
      assert FieldValue(s[..0]) == 0;
    } else {
      NumeralValue(s[..|s| - 1]);
      assert |s| == 2 ==> FieldValue(s[..1][..0]) == 0 && FieldValue(s[..1]) == s[0] as int - '0' as int;
    }
  }

  /** There is one numeral for each number: the one that is printed. */
  lemma {:induction false} NumeralUnique(s: string)
    requires IsNumeral(s)
    ensures FieldValue(s) >= 0 && s == Decimal(FieldValue(s))
  {
    NumeralValue(s);
    var last := |s| - 1;
    if last == 0 {
      assert s[..0] == "";
    } else {
      NumeralUnique(s[..last]);
      assert s == s[..last] + [s[last]];
      assert FieldValue(s) / 10 == FieldValue(s[..last]) && FieldValue(s) % 10 == s[last] as int - '0' as int;
    }
  }

  /** Reading a printed number never makes an int larger than the number itself. */
  lemma {:induction false} PartialValuesFit(n: nat, i: nat)
    requires i < |Decimal(n)|
    ensures 0 <= FieldValue(Decimal(n)[..i]) * 10 <= n
    ensures 0 <= FieldValue(Decimal(n)[..i + 1]) <= n
  {
    DecimalRoundTrip(n);
    if i == |Decimal(n)| - 1 {
      assert Decimal(n)[..i + 1] == Decimal(n);
      assert Decimal(n)[..i] == if n < 10 then "" else Decimal(n / 10);
      if n >= 10 {
        DecimalRoundTrip(n / 10);
      }
    } else {
      PartialValuesFit(n / 10, i);
      assert Decimal(n)[..i] == Decimal(n / 10)[..i];
      assert Decimal(n)[..i + 1] == Decimal(n / 10)[..i + 1];
    }
  }

  // ---- The reader's int ----

  const INT_MAX: int := 0x7fff_ffff

  predicate Fits(x: int) {
    -INT_MAX - 1 <= x <= INT_MAX
  }

  /** No multiplication and no addition overflows while the field is read. */
  predicate FieldFits(s: string) {
    s == "" || (var t := s[..|s| - 1]; FieldFits(t) && Fits(FieldValue(t) * 10) && Fits(FieldValue(s)))
  }

  lemma {:induction false} PrefixFits(n: nat, i: nat)
    requires n <= INT_MAX && i <= |Decimal(n)|
    ensures FieldFits(Decimal(n)[..i])
  {
    if i > 0 {
      PrefixFits(n, i - 1);
      PartialValuesFit(n, i - 1);
      assert Decimal(n)[..i][..i - 1] == Decimal(n)[..i - 1];
    }
  }

  /** A printed length can be read without overflow exactly when it is an int itself. */
  lemma DecimalFits(n: nat)
    ensures FieldFits(Decimal(n)) <==> n <= INT_MAX
  {
    DecimalRoundTrip(n);
    if n <= INT_MAX {
      PrefixFits(n, |Decimal(n)|);
      assert Decimal(n)[..|Decimal(n)|] == Decimal(n);
    }
  }

  // ---- Records ----

  function Words(args: seq<string>): string {
    if args == [] then "" else Words(args[..|args| - 1]) + args[|args| - 1] + " "
  }

  /** One line: every argument followed by a space, then a newline. */
  function Payload(args: seq<string>): string {
    Words(args) + "\n"
  }

  function Record(args: seq<string>): string {
    Decimal(|Payload(args)|) + " " + Payload(args)
  }

  /** The pieces of `s` that end with a space, and what follows the last space. */
  function Cut(s: string): (r: (seq<string>, string))
  {
    if Find(s, ' ') == |s| then ([], s)
    else
      var rest := Cut(s[Find(s, ' ') + 1..]);
      ([s[..Find(s, ' ')]] + rest.0, rest.1)
  }

  lemma CutPiece(piece: string, rest: string)
    requires ' ' !in piece
    ensures Cut(piece + " " + rest) == ([piece] + Cut(rest).0, Cut(rest).1)
  {
    var s := piece + " " + rest;
    assert s == piece + [' '] + rest;
    FindAfter(piece, ' ', rest);
    assert s[..|piece|] == piece && s[|piece| + 1..] == rest;
  }

  lemma CutNothing(tail: string)
    requires ' ' !in tail
    ensures Cut(Words([]) + tail) == ([], tail)
  {
    assert "" + tail == tail;
    FindNone(tail, ' ');
  }

  lemma JoinRight(a: string, b: string, c: string, d: string)
    ensures a + b + c + d == a + b + (c + d)
  {
  }

  lemma {:induction false} CutWords(args: seq<string>, tail: string)
    requires forall i :: 0 <= i < |args| ==> ' ' !in args[i]
    requires ' ' !in tail
    ensures Cut(Words(args) + tail) == (args, tail)
  {
    hide Words, Cut, Find;
    if args == [] {
      CutNothing(tail);
    } else {
      WordsFront(args);
      CutWords(args[1..], tail);
      CutPiece(args[0], Words(args[1..]) + tail);
      JoinRight(args[0], " ", Words(args[1..]), tail);
      assert args == [args[0]] + args[1..];
    }
  }

  lemma {:induction false} WordsFront(args: seq<string>)
    requires args != []
    ensures Words(args) == args[0] + " " + Words(args[1..])
  {
    var last := |args| - 1;
    if last == 0 {
      assert args[..0] == [] && args[1..] == [] && "" + args[0] == args[0];
    } else {
      WordsFront(args[..last]);
      assert args[..last][1..] == args[1..][..last - 1];
      WordsLast(args);
      WordsLast(args[1..]);
      hide Words;
      assert Words(args) == (args[0] + " " + Words(args[..last][1..])) + args[last] + " ";
    }
  }

  lemma WordsLast(args: seq<string>)
    requires args != []
    ensures Words(args) == Words(args[..|args| - 1]) + args[|args| - 1] + " "
  {
  }

  /** What one run writes, in terms of the arguments: the numeral of the line's length, a space, and a
      line of their letters, a space for each and a newline; if no argument contains a space, cutting
      the line at its spaces gives back the arguments in order. */
  lemma RecordShape(args: seq<string>) returns (number: string, line: string)
    requires args != []
    ensures Record(args) == number + " " + line && IsNumeral(number) && FieldValue(number) == |line|
    ensures |line| == Letters(args) + |args| + 1 && line[|line| - 1] == '\n'
    ensures (forall i :: 0 <= i < |args| ==> ' ' !in args[i]) ==> Cut(line) == (args, "\n")
  {
    number, line := Decimal(|Payload(args)|), Payload(args);
    DecimalRoundTrip(|line|);
    DecimalIsNumeral(|line|);
    WordsLength(args);
    hide Words, Cut, Decimal, IsNumeral, Letters;
    if forall i :: 0 <= i < |args| ==> ' ' !in args[i] {
      CutWords(args, "\n");
    }
  }

  lemma {:induction false} DecimalIsNumeral(n: nat)
    ensures IsNumeral(Decimal(n))
  {
    DecimalRoundTrip(n);
  }

  function Letters(args: seq<string>): nat {
    if args == [] then 0 else |args[0]| + Letters(args[1..])
  }

  lemma {:induction false} WordsLength(args: seq<string>)
    ensures |Words(args)| == Letters(args) + |args|
  {
    if args != [] {
      WordsFront(args);
      WordsLength(args[1..]);
    }
  }

  /** One run of appendfile_count with `args` after the file name. */
  method AppendRun(file: string, args: seq<string>) returns (file': string)
    ensures file' == if args == [] then file else file + Record(args)
  {
    if |args| < 1 {
      return file;
    }
    hide Decimal;
    var len := 0;
    for i := 0 to |args|
      invariant len == |Words(args[..i])|
    {
      assert args[..i + 1][..i] == args[..i];
      len := len + |args[i]| + 1;
    }
    assert args[..|args|] == args;
    len := len + 1;
    file' := file + Decimal(len) + " ";
    ghost var start := file';
    for i := 0 to |args|
      invariant file' == start + Words(args[..i])
    {
      assert args[..i + 1][..i] == args[..i];
      file' := file' + args[i] + " ";
    }
    file' := file' + "\n";
    assert file' == file + (Decimal(len) + " " + Payload(args));
  }

  /** The file that a sequence of runs leaves, from an empty file. */
  function FileOf(runs: seq<seq<string>>): string {
    if runs == [] then ""
    else (if runs[0] == [] then "" else Record(runs[0])) + FileOf(runs[1..])
  }

  lemma {:induction false} FileOfNext(runs: seq<seq<string>>, args: seq<string>)
    ensures FileOf(runs + [args]) == FileOf(runs) + if args == [] then "" else Record(args)
  {
    hide Record;
    if runs == [] {
      assert [] + [args] == [args] && [args][1..] == [];
    } else {
      assert (runs + [args])[1..] == runs[1..] + [args];
      FileOfNext(runs[1..], args);
    }
  }

  /** Successive runs of appendfile_count on a file that starts empty. */
  method AppendAll(runs: seq<seq<string>>) returns (file: string)
    ensures file == FileOf(runs)
  {
    file := "";
    for i := 0 to |runs|
      invariant file == FileOf(runs[..i])
    {
      file := AppendRun(file, runs[i]);
      FileOfNext(runs[..i], runs[i]);
      assert runs[..i + 1] == runs[..i] + [runs[i]];
    }
    assert runs[..|runs|] == runs;
  }

  function Expected(runs: seq<seq<string>>): seq<(int, string)> {
    if runs == [] then []
    else (if runs[0] == [] then [] else [(|Payload(runs[0])|, Payload(runs[0]))]) + Expected(runs[1..])
  }

  // ---- The reader ----

  /** Index of the first `c`, or the length if there is none. */
  function Find(s: string, c: char): (i: nat)
    ensures i <= |s| && c !in s[..i] && (i < |s| ==> s[i] == c)
  {
    if s == "" || s[0] == c then 0
    else
      var i := Find(s[1..], c) + 1;
      assert s[..i] == [s[0]] + s[1..][..i - 1];
      i
  }

  lemma {:induction false} FindAfter(s: string, c: char, t: string)
    requires c !in s
    ensures Find(s + [c] + t, c) == |s|
  {
    var u := s + [c] + t;
    if s == "" {
      assert u[0] == c;
    } else {
      assert u[0] == s[0] && s[0] in s;
      assert u[1..] == s[1..] + [c] + t;
      FindAfter(s[1..], c, t);
    }
  }

  /** Length of the line that getline takes off the front of `s`, with its newline if it has one. */
  function LineLength(s: string): (l: nat)
    ensures l <= |s| && (s != "" ==> l > 0)
  {
    if Find(s, '\n') < |s| then Find(s, '\n') + 1 else |s|
  }

  /** getLineLen stops at a space, and there is something after it for getline. */
  predicate HasRecord(s: string) {
    Find(s, ' ') < |s| && s[Find(s, ' ') + 1..] != ""
  }

  /** What getLineLen reads first. */
  function Field(s: string): string {
    s[..Find(s, ' ')]
  }

  /** What getline sees first. */
  function LineStart(s: string): string
    requires HasRecord(s)
  {
    s[Find(s, ' ') + 1..]
  }

  function First(s: string): (int, string)
    requires HasRecord(s)
  {
    (FieldValue(Field(s)), LineStart(s)[..LineLength(LineStart(s))])
  }

  function After(s: string): (r: string)
    requires HasRecord(s)
    ensures |r| < |s|
  {
    LineStart(s)[LineLength(LineStart(s))..]
  }

  /** What the reader does with a file: the results of its successful passes; whether a signed overflow
      ended it (undefined behaviour, section 6.5 of ISO C11); and whether it has made a last pass in
      which getline failed, which prints what the buffer still held. */
  datatype Reading = Reading(results: seq<(int, string)>, overflowed: bool, stale: bool)

  /** The loop for the rest of a file, entered before its end has been met. It is left after a line
      that ends at the end of the file and not with a newline, or after a pass that finds no line. */
  function ReadRest(s: string): Reading
    decreases |s|
  {
    if !FieldFits(Field(s)) then Reading([], true, false)
    else if !HasRecord(s) then Reading([], false, true)
    else if Find(LineStart(s), '\n') == |LineStart(s)| then Reading([First(s)], false, false)
    else Joined([First(s)], ReadRest(After(s)))
  }

  function Joined(results: seq<(int, string)>, rest: Reading): Reading {
    rest.(results := results + rest.results)
  }

  lemma FindNone(s: string, c: char)
    requires c !in s
    ensures Find(s, c) == |s|
  {
  }

  lemma {:induction false} FitsUpTo(s: string, i: nat)
    requires FieldFits(s) && i <= |s|
    ensures FieldFits(s[..i])
  {
    if i == |s| {
      assert s[..i] == s;
    } else {
      FitsUpTo(s[..|s| - 1], i);
      assert s[..|s| - 1][..i] == s[..i];
    }
  }

  lemma FieldContains(s: string, k: nat)
    requires k <= |s| && ' ' !in s[..k]
    ensures k <= Find(s, ' ') && Field(s)[..k] == s[..k]
  {
  }

  lemma ReadSoFarFits(s: string, k: nat)
    requires k <= |s| && ' ' !in s[..k] && FieldFits(Field(s))
    ensures FieldFits(s[..k])
  {
    FieldContains(s, k);
    FitsUpTo(Field(s), k);
  }

  /** getLineLen has read `k` characters of `s`, none of them a space, and holds their value. */
  ghost predicate ReadingField(s: string, k: nat, len: int) {
    k <= |s| && ' ' !in s[..k] && len == FieldValue(s[..k]) && FieldFits(s[..k]) && Fits(len)
  }

  lemma NextIsSpace(s: string, k: nat, len: int)
    requires ReadingField(s, k, len) && k < |s| && s[k] == ' '
    ensures Find(s, ' ') == k && Field(s) == s[..k]
  {
    hide FieldFits, FieldValue, Fits;
    assert s == s[..k] + [' '] + s[k + 1..];
    FindAfter(s[..k], ' ', s[k + 1..]);
  }

  lemma OneDigit(t: string, c: char)
    ensures var len := FieldValue(t);
            var len' := len * 10 + (c as int - '0' as int);
            && FieldValue(t + [c]) == len'
            && (FieldFits(t + [c]) <==> FieldFits(t) && Fits(len * 10) && Fits(len'))
  {
    assert (t + [c])[..|t|] == t;
  }

  lemma NextIsDigit(s: string, k: nat, len: int)
    requires ReadingField(s, k, len) && k < |s| && s[k] != ' '
    ensures var len' := len * 10 + (s[k] as int - '0' as int);
            if Fits(len * 10) && Fits(len') then ReadingField(s, k + 1, len') else !FieldFits(Field(s))
  {
    hide Find, Fits, FieldFits, FieldValue, Field;
    OneDigit(s[..k], s[k]);
    assert s[..k + 1] == s[..k] + [s[k]];
    if FieldFits(Field(s)) {
      ReadSoFarFits(s, k + 1);
    }
  }

  lemma EndOfField(s: string, len: int)
    requires ReadingField(s, |s|, len)
    ensures Find(s, ' ') == |s| && Field(s) == s && len == FieldValue(s) && FieldFits(s)
  {
    assert s[..|s|] == s;
    FindNone(s, ' ');
  }

  /** getLineLen: characters up to a space or the end of the file. */
  method GetLineLen(data: string, start: nat) returns (len: int, pos: nat, eof: bool, overflowed: bool)
    requires start <= |data|
    ensures overflowed <==> !FieldFits(Field(data[start..]))
    ensures !overflowed ==>
              var e := Find(data[start..], ' ');
              && len == FieldValue(Field(data[start..])) && Fits(len)
              && (eof <==> e == |data[start..]|)
              && pos == start + e + if eof then 0 else 1
  {
    hide FieldValue, FieldFits, Fits, Find;
    len, pos, eof, overflowed := 0, start, false, false;
    ghost var s := data[start..];
    NothingRead(s);
    while true
      invariant start <= pos <= |data| && ReadingField(s, pos - start, len)
      decreases |data| - pos
    {
      if pos == |data| {
        eof := true;
        EndOfField(s, len);
        return;
      }
      var c := data[pos];
      if c == ' ' {
        NextIsSpace(s, pos - start, len);
        pos := pos + 1;
        return;
      }
      NextIsDigit(s, pos - start, len);
      pos := pos + 1;
      if !Fits(len * 10) || !Fits(len * 10 + (c as int - '0' as int)) {
        overflowed := true;
        return;
      }
      len := len * 10;
      len := len + (c as int - '0' as int);
    }
  }

  lemma NothingRead(s: string)
    ensures ReadingField(s, 0, 0)
  {
  }

  /** getline: it fails at the end of the file, and meets the end when the last line has no newline. */
  method GetLine(data: string, start: nat) returns (line: string, pos: nat, ok: bool, eof: bool)
    requires start <= |data|
    ensures ok <==> start < |data|
    ensures line == data[start..][..LineLength(data[start..])] && pos == start + |line|
    ensures eof <==> Find(data[start..], '\n') == |data[start..]|
  {
    ghost var s := data[start..];
    pos := start;
    while pos < |data| && data[pos] != '\n'
      invariant start <= pos <= |data| && '\n' !in s[..pos - start]
    {
      assert s[..pos + 1 - start] == s[..pos - start] + [data[pos]];
      pos := pos + 1;
    }
    eof := pos == |data|;
    if eof {
      assert s[..pos - start] == s;
      FindNone(s, '\n');
    } else {
      ghost var e := pos - start;
      assert s == s[..e] + ['\n'] + s[e + 1..];
      FindAfter(s[..e], '\n', s[e + 1..]);
      pos := pos + 1;
    }
    line := data[start..pos];
    ok := start < |data|;
  }

  lemma OneResult(data: string, start: nat, p: nat, q: nat, len: int, line: string)
    requires start <= p < |data|
    requires var s := data[start..];
             Find(s, ' ') < |s| && p == start + Find(s, ' ') + 1 && len == FieldValue(Field(s))
    requires line == data[p..][..LineLength(data[p..])] && q == p + |line|
    ensures HasRecord(data[start..]) && First(data[start..]) == (len, line) && After(data[start..]) == data[q..]
    ensures LineStart(data[start..]) == data[p..]
  {
    var s := data[start..];
    assert data[p..] == s[Find(s, ' ') + 1..];
    assert data[q..] == data[p..][|line|..];
  }

  /** A pass in which getline delivers a line, which `ended` at the end of the file or at a newline. */
  lemma PassWithLine(data: string, start: nat, p: nat, q: nat, len: int, line: string, ended: bool,
                     results: seq<(int, string)>)
    requires start <= p < |data| && FieldFits(Field(data[start..]))
    requires var s := data[start..];
             Find(s, ' ') < |s| && p == start + Find(s, ' ') + 1 && len == FieldValue(Field(s))
    requires line == data[p..][..LineLength(data[p..])] && q == p + |line|
    requires ended <==> Find(data[p..], '\n') == |data[p..]|
    ensures Joined(results, ReadRest(data[start..]))
         == if ended then Reading(results + [(len, line)], false, false)
            else Joined(results + [(len, line)], ReadRest(data[q..]))
  {
    OneResult(data, start, p, q, len, line);
    hide Find, Field, FieldFits, FieldValue, LineStart, LineLength, First, After, HasRecord;
    var s := data[start..];
    if !ended {
      assert ReadRest(s) == Joined([First(s)], ReadRest(data[q..]));
      assert results + ([First(s)] + ReadRest(data[q..]).results)
          == results + [First(s)] + ReadRest(data[q..]).results;
    }
  }

  /** A pass that comes to the end of the file before a line. */
  lemma PassWithoutLine(data: string, start: nat, results: seq<(int, string)>)
    requires start <= |data| && FieldFits(Field(data[start..])) && !HasRecord(data[start..])
    ensures Joined(results, ReadRest(data[start..])) == Reading(results, false, true)
  {
    hide Field, FieldFits, HasRecord;
    assert results + [] == results;
  }

  /** The loop of readfile.c: what getLineLen returned and getline delivered, until end of file. */
  method ReadFile(data: string) returns (reading: Reading)
    ensures reading == ReadRest(data)
  {
    hide FieldValue, FieldFits, Field, LineLength, ReadRest;
    var results: seq<(int, string)> := [];
    var pos, eof, stale := 0, false, false;
    assert data[0..] == data && Joined([], ReadRest(data)) == ReadRest(data);
    while !eof
      invariant pos <= |data| && (stale ==> eof)
      invariant eof ==> ReadRest(data) == Reading(results, false, stale)
      invariant !eof ==> ReadRest(data) == Joined(results, ReadRest(data[pos..]))
      decreases !eof, |data| - pos
    {
      var len, p, atEnd, overflowed := GetLineLen(data, pos);
      if overflowed {
        Overflows(data[pos..]);
        assert results + [] == results;
        return Reading(results, true, false);
      }
      var line, q, ok, ended := GetLine(data, p);
      if ok {
        PassWithLine(data, pos, p, q, len, line, ended, results);
        LineIsNotEmpty(data[p..]);
        results := results + [(len, line)];
      } else {
        PassWithoutLine(data, pos, results);
        stale := true;
      }
      pos, eof := q, atEnd || ended;
    }
    reading := Reading(results, false, stale);
  }

  lemma Overflows(s: string)
    requires !FieldFits(Field(s))
    ensures ReadRest(s) == Reading([], true, false)
  {
  }

  lemma LineIsNotEmpty(s: string)
    requires s != ""
    ensures LineLength(s) > 0
  {
  }

  lemma NothingLeft()
    ensures ReadRest("") == Reading([], false, true)
  {
    assert Field("") == "";
  }

  /** What a pass takes off the file: a field without a space, the space, and a line that has no newline
      before its end, and one there unless it is all that is left. */
  lemma PassSplits(s: string)
    requires HasRecord(s)
    ensures s == Field(s) + " " + First(s).1 + After(s) && ' ' !in Field(s) && First(s).0 == FieldValue(Field(s))
    ensures var line := First(s).1;
            && line != "" && '\n' !in line[..|line| - 1] && (line[|line| - 1] != '\n' ==> After(s) == "")
  {
    LineShape(s);
  }

  /** The part of a file that the successful passes have taken: each a field, a space and a line. */
  function Taken(fields: seq<string>, lines: seq<(int, string)>): string
    requires |fields| == |lines|
  {
    if fields == [] then "" else fields[0] + " " + lines[0].1 + Taken(fields[1..], lines[1..])
  }

  /** One pass: a field that holds no space and fits, its value, and a line with at most one newline,
      which is its last character. */
  ghost predicate IsPass(field: string, result: (int, string)) {
    && ' ' !in field && FieldFits(field) && FieldValue(field) == result.0
    && result.1 != "" && '\n' !in result.1[..|result.1| - 1]
  }

  predicate EndsLine(line: string) {
    line != "" && line[|line| - 1] == '\n'
  }

  /** How the reader stops in front of the rest of a file: at a field that overflows, at one with no
      line after it, or at the end of the file after a line without a newline. */
  ghost predicate StopsAt(reading: Reading, tail: string) {
    var lines := reading.results;
    && (reading.overflowed <==> !FieldFits(Field(tail))) && !(reading.overflowed && reading.stale)
    && (reading.stale ==> tail == "" || ' ' !in tail[..|tail| - 1])
    && (!reading.overflowed && !reading.stale ==> tail == "" && lines != [] && !EndsLine(lines[|lines| - 1].1))
    && (forall i :: 0 <= i < |lines| - 1 ==> EndsLine(lines[i].1))
    && (reading.overflowed || reading.stale ==> lines == [] || EndsLine(lines[|lines| - 1].1))
  }

  /** Whatever the file holds, the reader takes it apart from the front, pass by pass, until it stops;
      nothing is skipped and nothing read twice. */
  lemma {:induction false} PassesCoverFile(s: string) returns (fields: seq<string>, tail: string)
    ensures |fields| == |ReadRest(s).results| && s == Taken(fields, ReadRest(s).results) + tail
    ensures forall i :: 0 <= i < |fields| ==> IsPass(fields[i], ReadRest(s).results[i])
    ensures StopsAt(ReadRest(s), tail)
    decreases |s|
  {
    if !FieldFits(Field(s)) || !HasRecord(s) {
      NoPass(s);
      return [], s;
    }
    LineEnds(s);
    OnePass(s);
    hide FieldFits, First, Field, After, HasRecord, LineStart, LineLength, EndsLine, IsPass, StopsAt, Taken, ReadRest;
    if Find(LineStart(s), '\n') == |LineStart(s)| {
      LastPass(s);
      return [Field(s)], "";
    }
    fields, tail := PassesCoverFile(After(s));
    MorePasses(s, fields, tail);
    fields := [Field(s)] + fields;
  }

  lemma NoPass(s: string)
    requires !FieldFits(Field(s)) || !HasRecord(s)
    ensures ReadRest(s).results == [] && StopsAt(ReadRest(s), s)
  {
    hide FieldFits;
    if !HasRecord(s) && s != "" {
      assert Find(s, ' ') >= |s| - 1;
      assert s[..|s| - 1] == s[..Find(s, ' ')][..|s| - 1];
    }
  }

  lemma OnePass(s: string)
    requires HasRecord(s) && FieldFits(Field(s))
    ensures IsPass(Field(s), First(s))
  {
    PassSplits(s);
    hide Field, First, After, HasRecord, FieldFits, FieldValue;
  }

  lemma LineEnds(s: string)
    requires HasRecord(s)
    ensures EndsLine(First(s).1) <==> Find(LineStart(s), '\n') < |LineStart(s)|
    ensures !EndsLine(First(s).1) ==> After(s) == ""
  {
    var t := LineStart(s);
    assert Find(t, '\n') == |t| ==> t[..|t|] == t;
  }

  lemma LastPass(s: string)
    requires HasRecord(s) && FieldFits(Field(s)) && Find(LineStart(s), '\n') == |LineStart(s)|
    requires !EndsLine(First(s).1)
    ensures ReadRest(s).results == [First(s)] && StopsAt(ReadRest(s), "")
    ensures s == Taken([Field(s)], [First(s)]) + ""
  {
    assert Field("") == "" && FieldFits("");
    LineEnds(s);
    PassSplits(s);
    hide FieldFits, Find, First, HasRecord, LineStart, EndsLine, After, Field, FieldValue, LineLength;
    TakenLine(Field(s), First(s));
  }

  lemma TakenLine(field: string, line: (int, string))
    ensures Taken([field], [line]) == field + " " + line.1
  {
    assert [field][1..] == [] && [line][1..] == [];
  }

  lemma TakenMore(field: string, first: (int, string), fields: seq<string>, lines: seq<(int, string)>, tail: string)
    requires |fields| == |lines|
    ensures field + " " + first.1 + (Taken(fields, lines) + tail) == Taken([field] + fields, [first] + lines) + tail
  {
    assert ([field] + fields)[1..] == fields && ([first] + lines)[1..] == lines;
  }

  lemma StopsLater(first: (int, string), rest: Reading, tail: string)
    requires EndsLine(first.1) && StopsAt(rest, tail)
    ensures StopsAt(Joined([first], rest), tail)
  {
    hide FieldFits, Field, EndsLine;
    var lines := Joined([first], rest).results;
    assert forall i :: 1 <= i < |lines| ==> lines[i] == rest.results[i - 1];
  }

  /** The pass and those after it. */
  lemma MorePasses(s: string, fields: seq<string>, tail: string)
    requires HasRecord(s) && FieldFits(Field(s)) && EndsLine(First(s).1) && IsPass(Field(s), First(s))
    requires var rest := ReadRest(After(s));
             |fields| == |rest.results| && After(s) == Taken(fields, rest.results) + tail && StopsAt(rest, tail)
    ensures ReadRest(s) == Joined([First(s)], ReadRest(After(s))) && StopsAt(ReadRest(s), tail)
    ensures s == Taken([Field(s)] + fields, ReadRest(s).results) + tail
  {
    LineEnds(s);
    PassSplits(s);
    hide FieldFits, Find, First, After, Field, HasRecord, LineStart, EndsLine, StopsAt, Taken, LineLength, FieldValue;
    var rest := ReadRest(After(s));
    assert ReadRest(s) == Joined([First(s)], rest);
    hide ReadRest;
    StopsLater(First(s), rest, tail);
    TakenMore(Field(s), First(s), fields, rest.results, tail);
  }

  // ---- What is read is what was written ----

  predicate NewlineFree(args: seq<string>) {
    forall i :: 0 <= i < |args| ==> '\n' !in args[i]
  }

  lemma {:induction false} WordsNewlines(args: seq<string>)
    ensures '\n' !in Words(args) <==> NewlineFree(args)
  {
    if args != [] {
      WordsNewlines(args[..|args| - 1]);
    }
  }

  /** What the reader meets in front of `rest` when a record stands there. */
  lemma RecordParts(args: seq<string>, rest: string)
    requires NewlineFree(args)
    ensures var s := Record(args) + rest;
            && HasRecord(s) && Field(s) == Decimal(|Payload(args)|) && First(s) == (|Payload(args)|, Payload(args))
            && After(s) == rest && Find(LineStart(s), '\n') < |LineStart(s)|
  {
    var s := Record(args) + rest;
    var number := Decimal(|Payload(args)|);
    DecimalRoundTrip(|Payload(args)|);
    assert s == number + [' '] + (Payload(args) + rest);
    FindAfter(number, ' ', Payload(args) + rest);
    assert Field(s) == number;
    var tail := s[|number| + 1..];
    assert tail == Words(args) + ['\n'] + rest;
    WordsNewlines(args);
    FindAfter(Words(args), '\n', rest);
    assert tail[..|Payload(args)|] == Payload(args) && tail[|Payload(args)|..] == rest;
  }

  lemma ReadRecord(args: seq<string>, rest: string)
    requires NewlineFree(args) && |Payload(args)| <= INT_MAX
    ensures ReadRest(Record(args) + rest) == Joined([(|Payload(args)|, Payload(args))], ReadRest(rest))
  {
    RecordParts(args, rest);
    DecimalFits(|Payload(args)|);
    hide Record, Payload, Field, FieldFits, HasRecord, First, After, LineStart, Find, Decimal, NewlineFree;
  }

  /** A run that the reader can get back: no newline in an argument, and a length that is an int. */
  predicate Readable(args: seq<string>) {
    NewlineFree(args) && (args != [] ==> |Payload(args)| <= INT_MAX)
  }

  lemma {:induction false} RunsReadBack(runs: seq<seq<string>>)
    requires forall r :: 0 <= r < |runs| ==> Readable(runs[r])
    ensures ReadRest(FileOf(runs)) == Reading(Expected(runs), false, true)
  {
    if runs == [] {
      NothingLeft();
    } else {
      RunsReadBack(runs[1..]);
      if runs[0] == [] {
        assert FileOf(runs) == FileOf(runs[1..]) && Expected(runs) == Expected(runs[1..]);
      } else {
        ReadRecord(runs[0], FileOf(runs[1..]));
      }
    }
  }

  /** A line that getline delivers has no newline before its last character. */
  lemma LineShape(s: string)
    requires HasRecord(s)
    ensures First(s).1 != "" && '\n' !in First(s).1[..|First(s).1| - 1]
  {
  }

  lemma LengthShape(s: string)
    requires HasRecord(s) && FieldFits(Field(s))
    ensures Fits(First(s).0)
  {
  }

  /** What the reader reports is a length that fits an int, with a line of one newline at most. */
  lemma {:induction false} ResultShape(s: string, i: nat)
    requires i < |ReadRest(s).results|
    ensures var (len, line) := ReadRest(s).results[i];
            Fits(len) && line != "" && '\n' !in line[..|line| - 1]
    decreases |s|
  {
    hide Find, LineLength, First, After, Field, FieldFits;
    if i == 0 {
      LineShape(s);
      LengthShape(s);
    } else {
      assert ReadRest(s) == Joined([First(s)], ReadRest(After(s)));
      ResultShape(After(s), i - 1);
      assert ReadRest(s).results[i] == ReadRest(After(s)).results[i - 1];
    }
  }

  lemma {:induction false} PayloadIsExpected(runs: seq<seq<string>>, r: nat) returns (i: nat)
    requires r < |runs| && runs[r] != []
    ensures i < |Expected(runs)| && Expected(runs)[i] == (|Payload(runs[r])|, Payload(runs[r]))
  {
    if r == 0 {
      i := 0;
    } else {
      var j := PayloadIsExpected(runs[1..], r - 1);
      assert runs[1..][r - 1] == runs[r];
      if runs[0] == [] {
        i := j;
      } else {
        i := j + 1;
        assert Expected(runs)[i] == Expected(runs[1..])[j];
      }
    }
  }

  /** Whatever sequence of runs wrote the file, the reader gets every payload line back in order, each
      with its own length and without overflow, and then makes one pass too many, exactly when no
      argument contained a newline and no line was longer than an int can say. */
  lemma ReadBackExact(runs: seq<seq<string>>)
    ensures ReadRest(FileOf(runs)) == Reading(Expected(runs), false, true)
       <==> forall r :: 0 <= r < |runs| ==> Readable(runs[r])
  {
    hide ReadRest, FileOf, Expected, Decimal, Words;
    if forall r :: 0 <= r < |runs| ==> Readable(runs[r]) {
      RunsReadBack(runs);
    } else if ReadRest(FileOf(runs)) == Reading(Expected(runs), false, true) {
      forall r | 0 <= r < |runs|
        ensures Readable(runs[r])
      {
        if runs[r] != [] {
          var i := PayloadIsExpected(runs, r);
          ResultShape(FileOf(runs), i);
          assert Payload(runs[r])[..|Payload(runs[r])| - 1] == Words(runs[r]);
          WordsNewlines(runs[r]);
        }
      }
    }
  }

  /** The two programs together: what is read from the file after those runs. */
  method AppendThenRead(runs: seq<seq<string>>) returns (reading: Reading)
    ensures reading == Reading(Expected(runs), false, true) <==> forall r :: 0 <= r < |runs| ==> Readable(runs[r])
  {
    var file := AppendAll(runs);
    reading := ReadFile(file);
    ReadBackExact(runs);
  }
}
