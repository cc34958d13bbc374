// The loop of String::trim, which moves the text towards the front of its own buffer.
module TrimInPlace {
  import opened Common
  import opened Trim

  /** Skips the white space at the start of a line, but no line break. */
  method SkipLeading(str: array<byte>, from: nat, ghost n: nat) returns (read: nat)
    requires from <= n < str.Length && str[n] == 0 && forall i :: from <= i < n ==> str[i] != 0
    ensures from <= read <= n
    ensures forall i :: from <= i < read ==> IsSpace(str[i]) && !IsBreak(str[i])
    ensures read < n ==> IsBreak(str[read]) || !IsSpace(str[read])
  {
    read := from;
    while str[read] != 0 && str[read] != 13 && str[read] != 10 && IsSpace(str[read])
      invariant from <= read <= n
      invariant forall i :: from <= i < read ==> IsSpace(str[i]) && !IsBreak(str[i])
      decreases n - read
    {
      read := read + 1;
    }
  }

  /** Goes to the end of the line, and finds the end of its text. */
  method ScanLine(str: array<byte>, from: nat, ghost n: nat) returns (end: nat, read: nat)
    requires from <= n < str.Length && str[n] == 0 && forall i :: from <= i < n ==> str[i] != 0
    ensures from <= end <= read <= n
    ensures forall i :: from <= i < read ==> !IsBreak(str[i])
    ensures read < n ==> IsBreak(str[read])
    ensures forall i :: end <= i < read ==> IsSpace(str[i])
    ensures from < end ==> !IsSpace(str[end - 1])
  {
    end, read := from, from;
    while str[read] != 0 && str[read] != 13 && str[read] != 10
      invariant from <= end <= read <= n
      invariant forall i :: from <= i < read ==> !IsBreak(str[i])
      invariant forall i :: end <= i < read ==> IsSpace(str[i])
      invariant from < end ==> !IsSpace(str[end - 1])
      decreases n - read
    {
      if !IsSpace(str[read]) {
        end := read + 1;
      }
      read := read + 1;
    }
  }

  /** Copies `str[from..end]` down to `str[at..]`, byte by byte; the two may overlap. */
  method CopyDown(str: array<byte>, at: nat, from: nat, end: nat) returns (write: nat)
    requires at <= from <= end <= str.Length
    modifies str
    ensures write == at + end - from && str[at..write] == old(str[from..end])
    ensures forall i :: 0 <= i < at || end <= i < str.Length ==> str[i] == old(str[i])
  {
    write := at;
    var start := from;
    while start < end
      invariant from <= start <= end && write == at + start - from
      invariant forall i :: at <= i < write ==> str[i] == old(str[from + i - at])
      invariant forall i :: 0 <= i < at || start <= i < str.Length ==> str[i] == old(str[i])
      decreases end - start
    {
      str[write] := str[start];
      write, start := write + 1, start + 1;
    }
  }

  /** One line: its text goes to `at`, without the white space around it, and its line break behind it. */
  method TrimLine(str: array<byte>, at: nat, from: nat, ghost n: nat) returns (write: nat, read: nat)
    requires at <= from < n < str.Length && str[n] == 0 && forall i :: from <= i < n ==> str[i] != 0
    modifies str
    ensures at <= write <= read && from < read <= n
    ensures forall i :: 0 <= i < at || read <= i < str.Length ==> str[i] == old(str[i])
    ensures str[at..write] + Trimmed(old(str[read..n])) == Trimmed(old(str[from..n]))
  {
    hide IsSpace, IsBreak, Trimmed, LineLength, Strip, Flush;
    ghost var s := str[from..n];
    var start := SkipLeading(str, from, n);
    var end, stop := ScanLine(str, start, n);
    LineFound(str[..], from, start, end, stop, n);
    read := stop;
    write := CopyDown(str, at, start, end);
    if str[read] == 13 || str[read] == 10 {
      BreakIs(str[read]);
      ghost var text := str[at..write];
      str[write] := str[read];
      write, read := write + 1, read + 1;
      assert str[at..write] == text + [s[stop - from]];
    } else {
      BreakIs(str[read]);
    }
  }

  /** What the two scans have found determines the trimmed text. */
  lemma LineFound(str: seq<byte>, from: nat, start: nat, end: nat, stop: nat, n: nat)
    requires from <= start <= end <= stop <= n < |str|
    requires forall i :: from <= i < stop ==> !IsBreak(str[i])
    requires forall i :: from <= i < start || end <= i < stop ==> IsSpace(str[i])
    requires start < end ==> !IsSpace(str[end - 1])
    requires start < n ==> IsBreak(str[start]) || !IsSpace(str[start])
    requires stop < n ==> IsBreak(str[stop])
    ensures stop < n ==> Trimmed(str[from..n]) == str[start..end] + [str[stop]] + Trimmed(str[stop + 1..n])
    ensures stop == n ==> Trimmed(str[from..n]) == str[start..end] + Trimmed(str[stop..n])
  {
    hide IsSpace, IsBreak, Trimmed, LineLength, Strip, Flush;
    var s, line := str[from..n], str[from..stop];
    TextFound(str, from, start, end, stop, n);
    assert s == line + str[stop..n];
    LineLengthIs(line, str[stop..n]);
    TrimStep(s);
    TrimEmpty();
    assert s[..stop - from] == line;
    if stop < n {
      assert s[stop - from + 1..] == str[stop + 1..n];
    }
  }

  lemma SliceOfSlice(str: seq<byte>, from: nat, stop: nat, start: nat, end: nat)
    requires from <= start <= end <= stop <= |str|
    ensures str[from..stop][start - from..end - from] == str[start..end]
  {
    var line := str[from..stop];
    assert line == str[from..start] + str[start..end] + str[end..stop];
  }

  lemma TextFound(str: seq<byte>, from: nat, start: nat, end: nat, stop: nat, n: nat)
    requires from <= start <= end <= stop <= n < |str|
    requires forall i :: from <= i < stop ==> !IsBreak(str[i])
    requires forall i :: from <= i < start || end <= i < stop ==> IsSpace(str[i])
    requires start < end ==> !IsSpace(str[end - 1])
    requires start < n ==> IsBreak(str[start]) || !IsSpace(str[start])
    ensures Strip(str[from..stop]) == str[start..end]
  {
    hide IsSpace, IsBreak, Strip;
    var line := str[from..stop];
    var text := line[start - from..end - from];
    SliceOfSlice(str, from, stop, start, end);
    assert start < end ==> text[0] == str[start] && text[|text| - 1] == str[end - 1];
    StripIs(line, start - from, end - from);
  }

  lemma BreakIs(c: byte)
    ensures IsBreak(c) <==> c == 13 || c == 10
  {
  }

  lemma TrimEmpty()
    ensures Trimmed([]) == []
  {
  }

  /**
   * `String::trim` on the string in front of the first zero, at `n`: the string becomes the trimmed one and what lies
   * behind its old end stays as it was.
   */
  method TrimString(str: array<byte>, ghost n: nat) returns (length: nat)
    requires n < str.Length && str[n] == 0 && forall i :: 0 <= i < n ==> str[i] != 0
    modifies str
    ensures length <= n && str[..length] == Trimmed(old(str[..n])) && str[length] == 0
    ensures forall i :: n <= i < str.Length ==> str[i] == old(str[i])
  {
    hide IsSpace, IsBreak, Trimmed;
    var read, write := 0, 0;
    while str[read] != 0
      invariant write <= read <= n
      invariant forall i :: read <= i < str.Length ==> str[i] == old(str[i])
      invariant str[..write] + Trimmed(str[read..n]) == Trimmed(old(str[..n]))
      decreases n - read
    {
      ghost var done, rest := str[..write], Trimmed(str[read..n]);
      ghost var at, from, before := write, read, str[read..n];
      write, read := TrimLine(str, write, read, n);
      assert str[..write] == done + str[at..write];
      assert str[read..n] == before[read - from..];
    }
    TrimEmpty();
    str[write] := 0;
    length := write;
  }
}
