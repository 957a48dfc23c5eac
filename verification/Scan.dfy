/** Whether a file holds any needle. */
module Scan {
  // Searching a file through a window: however reads come in, no match is missed at a seam.

  type Byte = bv8

  const CHUNK := 64 * 1024

  predicate OccursAt(text: seq<Byte>, needle: seq<Byte>, at: nat) {
    at + |needle| <= |text| && text[at..at + |needle|] == needle
  }

  predicate Occurs(text: seq<Byte>, needle: seq<Byte>) {
    exists at: nat :: at <= |text| && OccursAt(text, needle, at)
  }

  predicate AnyOccurs(text: seq<Byte>, needles: seq<seq<Byte>>) {
    exists i :: 0 <= i < |needles| && Occurs(text, needles[i])
  }

  function Longest(needles: seq<seq<Byte>>): (longest: nat)
    ensures forall i | 0 <= i < |needles| :: |needles[i]| <= longest
    ensures longest > 0 ==> exists i :: 0 <= i < |needles| && |needles[i]| == longest
  {
    if needles == [] then 0
    else
      var rest := Longest(needles[1..]);
      assert forall i | 0 < i < |needles| :: needles[i] == needles[1..][i - 1];
      if |needles[0]| > rest then |needles[0]| else rest
  }

  lemma Slice(text: seq<Byte>, from: nat, to: nat, low: nat, high: nat)
    requires from <= to <= |text| && low <= high <= to - from
    ensures text[from..to][low..high] == text[from + low..from + high]
  {
    var left, right := text[from..to][low..high], text[from + low..from + high];
    forall k | 0 <= k < high - low ensures left[k] == right[k] {
    }
  }

  /** An occurrence in a part is one in the whole. */
  lemma PartOccurs(text: seq<Byte>, from: nat, to: nat, needle: seq<Byte>)
    requires from <= to <= |text| && Occurs(text[from..to], needle)
    ensures Occurs(text[..to], needle) && Occurs(text, needle)
  {
    var at: nat :| at <= to - from && OccursAt(text[from..to], needle, at);
    Slice(text, from, to, at, at + |needle|);
    assert text[..to][from + at..from + at + |needle|] == text[from + at..from + at + |needle|];
    assert OccursAt(text[..to], needle, from + at);
    assert OccursAt(text, needle, from + at);
  }

  /**
   With nothing found up to `scanned`, whatever occurs up to `to` is in the window
   that begins one byte less than the longest needle before `scanned`.
   */
  lemma WindowEnough(text: seq<Byte>, scanned: nat, start: nat, to: nat, needle: seq<Byte>, overlap: nat)
    requires start <= scanned <= to <= |text| && |needle| <= overlap + 1
    requires start == 0 || start + overlap == scanned
    requires start > 0 ==> !Occurs(text[..scanned], needle)
    requires Occurs(text[..to], needle)
    ensures Occurs(text[start..to], needle)
  {
    var at: nat :| at <= to && OccursAt(text[..to], needle, at);
    assert text[..to][at..at + |needle|] == text[at..at + |needle|];
    if start > 0 && at + |needle| <= scanned {
      assert text[..scanned][at..at + |needle|] == text[at..at + |needle|];
      assert OccursAt(text[..scanned], needle, at);
    }
    assert at >= start;
    Slice(text, start, to, at - start, at - start + |needle|);
    assert OccursAt(text[start..to], needle, at - start);
  }

  lemma WindowsEnough(text: seq<Byte>, scanned: nat, start: nat, to: nat, needles: seq<seq<Byte>>)
    requires start <= scanned <= to <= |text| && Longest(needles) > 0
    requires start == 0 || start + (Longest(needles) - 1) == scanned
    requires start > 0 ==> !AnyOccurs(text[..scanned], needles)
    ensures AnyOccurs(text[start..to], needles) <==> AnyOccurs(text[..to], needles)
  {
    forall i | 0 <= i < |needles| ensures Occurs(text[start..to], needles[i]) <==> Occurs(text[..to], needles[i]) {
      if Occurs(text[start..to], needles[i]) { PartOccurs(text, start, to, needles[i]); }
      if Occurs(text[..to], needles[i]) { WindowEnough(text, scanned, start, to, needles[i], Longest(needles) - 1); }
    }
  }

  /** Whether any needle is in what has been filled. */
  method Matches(buffer: array<Byte>, filled: nat, needles: seq<seq<Byte>>) returns (found: bool)
    requires filled <= buffer.Length
    ensures found <==> AnyOccurs(buffer[..filled], needles)
  {
    var i := 0;
    while i < |needles|
      invariant 0 <= i <= |needles|
      invariant forall k | 0 <= k < i :: !Occurs(buffer[..filled], needles[k])
    {
      var at: nat := 0;
      while at <= filled
        invariant at <= filled + 1
        invariant forall k: nat | k < at :: !OccursAt(buffer[..filled], needles[i], k)
      {
        if OccursAt(buffer[..filled], needles[i], at) { return true; }
        at := at + 1;
      }
      i := i + 1;
    }
    found := false;
  }

  /** The last `count` bytes moved to the front. */
  method CopyWithin(buffer: array<Byte>, from: nat, count: nat)
    requires from + count <= buffer.Length
    modifies buffer
    ensures buffer[..count] == old(buffer[from..from + count])
  {
    var i := 0;
    while i < count
      invariant 0 <= i <= count
      invariant forall k | 0 <= k < i :: buffer[k] == old(buffer[from + k])
      invariant forall k | i <= k < buffer.Length :: buffer[k] == old(buffer[k])
    {
      buffer[i] := buffer[from + i];
      i := i + 1;
    }
  }

  /** One read: at least a byte, at most what fits, nothing only at the end. */
  function ReadSize(wanted: nat, space: nat, left: nat): (size: nat)
    ensures size <= space && size <= left
    ensures size == 0 <==> space == 0 || left == 0
  {
    var most := if space <= left then space else left;
    if wanted == 0 then (if most == 0 then 0 else 1) else if wanted <= most then wanted else most
  }

  method ReadInto(file: seq<Byte>, at: nat, buffer: array<Byte>, filled: nat, size: nat)
    requires at + size <= |file| && filled + size <= buffer.Length
    modifies buffer
    ensures buffer[..filled] == old(buffer[..filled])
    ensures buffer[filled..filled + size] == file[at..at + size]
  {
    var i := 0;
    while i < size
      invariant 0 <= i <= size
      invariant forall k | filled <= k < filled + i :: buffer[k] == file[at + (k - filled)]
      invariant forall k | 0 <= k < filled :: buffer[k] == old(buffer[k])
    {
      buffer[filled + i] := file[at + i];
      i := i + 1;
    }
    ghost var got, wanted := buffer[filled..filled + size], file[at..at + size];
    forall k | 0 <= k < size ensures got[k] == wanted[k] {
      assert buffer[filled + k] == file[at + k];
    }
  }

  lemma Refilled(file: seq<Byte>, start: nat, at: nat, size: nat, before: seq<Byte>, after: seq<Byte>)
    requires start <= at && at + size <= |file|
    requires before == file[start..at] && |after| == |before| + size
    requires after[..|before|] == before && after[|before|..] == file[at..at + size]
    ensures after == file[start..at + size]
  {
    assert after == after[..|before|] + after[|before|..];
    assert file[start..at + size] == file[start..at] + file[at..at + size];
  }

  /**
   However the bytes arrive, `bursts(k)` at most in the `k`-th read, the answer is
   whether some needle is in the whole file; no needle but empty ones finds nothing.
   */
  method FileContainsAny(file: seq<Byte>, needles: seq<seq<Byte>>, bursts: nat -> nat) returns (found: bool)
    ensures found <==> Longest(needles) > 0 && AnyOccurs(file, needles)
  {
    var longest := Longest(needles);
    if longest == 0 { return false; }
    var overlap := longest - 1;
    var buffer := new Byte[overlap + CHUNK];
    var filled: nat, at: nat, turn: nat := 0, 0, 0;
    ghost var scanned: nat := 0;
    while true
      invariant filled < buffer.Length && filled <= at <= |file|
      invariant buffer[..filled] == file[at - filled..at]
      invariant scanned <= at && at - filled <= scanned
      invariant at - filled == 0 || at - filled + overlap == scanned
      invariant at - filled > 0 ==> !AnyOccurs(file[..scanned], needles)
      decreases |file| - at
    {
      var size := ReadSize(bursts(turn), buffer.Length - filled, |file| - at);
      turn := turn + 1;
      if size == 0 { break; }
      ghost var before := buffer[..filled];
      ReadInto(file, at, buffer, filled, size);
      Refilled(file, at - filled, at, size, before, buffer[..filled + size]);
      filled, at := filled + size, at + size;
      if filled < buffer.Length { continue; }
      var matched := Matches(buffer, filled, needles);
      WindowsEnough(file, scanned, at - filled, at, needles);
      if matched {
        InWhole(file, at, needles);
        return true;
      }
      scanned := at;
      ghost var window := buffer[..filled];
      CopyWithin(buffer, filled - overlap, overlap);
      assert buffer[..overlap] == window[filled - overlap..] == file[at - overlap..at];
      filled := overlap;
    }
    assert at == |file| && file[..at] == file;
    found := Matches(buffer, filled, needles);
    WindowsEnough(file, scanned, at - filled, at, needles);
  }

  lemma InWhole(file: seq<Byte>, to: nat, needles: seq<seq<Byte>>)
    requires to <= |file| && AnyOccurs(file[..to], needles)
    ensures AnyOccurs(file, needles)
  {
    var i :| 0 <= i < |needles| && Occurs(file[..to], needles[i]);
    assert file[0..to] == file[..to];
    PartOccurs(file, 0, to, needles[i]);
  }
}
