/**
 The naming arithmetic of `create_clips`: clip `index` (0-based) of the list
 `detect_movement` returned is written to
 `output_clips/clip_<index + 1>_<seconds>s.mp4`, where `<seconds>` is the
 clip's duration in whole seconds, truncated toward zero. The numbers are
 printed in decimal, as Python's f-strings print an `int`.

 `ParseClipName` reads such a name back; `ClipNameRoundTrip` proves that a
 name determines its number and length, so that no two clips of one run are
 written to the same file.
 */
module ClipNaming {
  import opened Segmenter

  datatype Option<T> = None | Some(value: T)

  const Prefix: string := "output_clips/clip_"
  const Suffix: string := "s.mp4"

  predicate IsDigit(c: char)
  {
    '0' <= c <= '9'
  }

  predicate AllDigits(s: string)
  {
    forall i :: 0 <= i < |s| ==> IsDigit(s[i])
  }

  function DigitChar(d: nat): (c: char)
    requires d < 10
    ensures IsDigit(c) && c as int - '0' as int == d
  {
    ('0' as int + d) as char
  }

  /** The decimal text of `n`, without leading zeros. */
  function Decimal(n: nat): (s: string)
    ensures |s| > 0 && AllDigits(s)
    ensures n > 0 ==> s[0] != '0'
    ensures s[0] == '0' ==> s == "0"
  {
    if n < 10 then [DigitChar(n)] else Decimal(n / 10) + [DigitChar(n % 10)]
  }

  /** The value of a string of decimal digits. */
  function DigitsValue(s: string): nat
    requires AllDigits(s)
  {
    if s == [] then 0 else DigitsValue(s[..|s| - 1]) * 10 + (s[|s| - 1] as int - '0' as int)
  }

  /** Python's `f"{n}"` for an `int`: a minus sign before the magnitude's
      digits when negative. */
  function IntText(i: int): (s: string)
    ensures |s| > 0 && (s[0] == '-' <==> i < 0)
    ensures forall j :: 0 <= j < |s| ==> s[j] != '_'
  {
    if i < 0 then "-" + Decimal(-i) else Decimal(i)
  }

  function ParseNat(s: string): Option<nat>
  {
    if s != [] && AllDigits(s) then Some(DigitsValue(s)) else None
  }

  function ParseInt(s: string): Option<int>
  {
    if s != [] && s[0] == '-' then
      match ParseNat(s[1..])
      case Some(v) => Some(-(v as int))
      case None => None
    else
      match ParseNat(s)
      case Some(v) => Some(v)
      case None => None
  }

  /** The position of the first `c` in `s`, or `|s|` when there is none. */
  function FirstIndexOf(s: string, c: char): (k: nat)
    ensures k <= |s|
    ensures forall i :: 0 <= i < k ==> s[i] != c
    ensures k < |s| ==> s[k] == c
    decreases |s|
  {
    if s == [] || s[0] == c then 0 else 1 + FirstIndexOf(s[1..], c)
  }

  /** The clip's duration in whole seconds: the millisecond difference
      divided by 1000 and truncated toward zero (Python's `int` of a float),
      so never negative when `end >= start`. */
  function ClipLength(start: int, end: int): (r: int)
    ensures end >= start ==> 0 <= r && r * 1000 <= end - start < r * 1000 + 1000
    ensures end < start ==> r <= 0 && -r * 1000 <= start - end < -r * 1000 + 1000
  {
    var d := end - start;
    if d >= 0 then d / 1000 else -((-d) / 1000)
  }

  /** The output file of a clip: its number and its length label in decimal,
      under the `output_clips` directory, with an `.mp4` extension. */
  function ClipName(number: nat, length: int): (name: string)
    ensures |name| > |Prefix| + |Suffix| + 1
    ensures name[..|Prefix|] == Prefix && name[|name| - |Suffix|..] == Suffix
  {
    Prefix + Decimal(number) + "_" + IntText(length) + Suffix
  }

  /** Reads the number and the length back out of a clip name. */
  function ParseClipName(name: string): Option<(nat, int)>
  {
    if |name| < |Prefix| + |Suffix| || name[..|Prefix|] != Prefix || name[|name| - |Suffix|..] != Suffix then
      None
    else
      var middle := name[|Prefix|..|name| - |Suffix|];
      var k := FirstIndexOf(middle, '_');
      if k == |middle| then None
      else
        match (ParseNat(middle[..k]), ParseInt(middle[k + 1..]))
        case (Some(n), Some(l)) => Some((n, l))
        case _ => None
  }

  lemma {:induction false} DecimalRoundTrip(n: nat)
    ensures ParseNat(Decimal(n)) == Some(n)
    decreases n
  {
    var s := Decimal(n);
    if n >= 10 {
      DecimalRoundTrip(n / 10);
      assert s[..|s| - 1] == Decimal(n / 10);
      assert DigitsValue(s) == (n / 10) * 10 + n % 10;
    }
  }

  lemma IntTextRoundTrip(i: int)
    ensures ParseInt(IntText(i)) == Some(i)
  {
    if i < 0 {
      DecimalRoundTrip(-i);
      assert IntText(i)[1..] == Decimal(-i);
    } else {
      DecimalRoundTrip(i);
    }
  }

  /** A clip name determines the clip number and the length it was made from. */
  lemma ClipNameRoundTrip(number: nat, length: int)
    ensures ParseClipName(ClipName(number, length)) == Some((number, length))
  {
    var d, l := Decimal(number), IntText(length);
    var name := ClipName(number, length);
    var middle := d + "_" + l;
    assert name == Prefix + (middle + Suffix);
    assert name[..|Prefix|] == Prefix;
    assert name[|name| - |Suffix|..] == Suffix;
    assert name[|Prefix|..|name| - |Suffix|] == middle;
    var k := FirstIndexOf(middle, '_');
    assert middle[|d|] == '_';
    assert k == |d|;
    assert middle[..k] == d;
    assert middle[k + 1..] == l;
    DecimalRoundTrip(number);
    IntTextRoundTrip(length);
  }

  /** A clip shorter than one second is labelled `0`: the 150 ms first clip
      is written to `output_clips/clip_1_0s.mp4`. */
  lemma ShortClipName()
    ensures ClipName(1, ClipLength(0, 150)) == "output_clips/clip_1_0s.mp4"
  {
    assert ClipLength(0, 150) == 0;
    assert Decimal(1) == "1" && IntText(0) == "0";
  }

  /** Two clips get the same file name only if they have the same number and
      the same length label. */
  lemma ClipNamesDistinct(n1: nat, l1: int, n2: nat, l2: int)
    requires ClipName(n1, l1) == ClipName(n2, l2)
    ensures n1 == n2 && l1 == l2
  {
    ClipNameRoundTrip(n1, l1);
    ClipNameRoundTrip(n2, l2);
  }

  /** What the writer is asked to do for one clip: the file to create and the
      span of the video to copy into it. */
  datatype ClipJob = ClipJob(name: string, start: int, end: int)

  /** The loop of `create_clips` without the video I/O: clip `index` gets
      number `index + 1` and its length label, and no two clips of the run
      share a file name. */
  method CreateClips(motionClips: seq<Interval>) returns (jobs: seq<ClipJob>)
    ensures |jobs| == |motionClips|
    ensures forall i :: 0 <= i < |jobs| ==>
              && jobs[i].start == motionClips[i].start && jobs[i].end == motionClips[i].end
              && jobs[i].name == ClipName(i + 1, ClipLength(motionClips[i].start, motionClips[i].end))
    ensures forall i, j :: 0 <= i < j < |jobs| ==> jobs[i].name != jobs[j].name
  {
    jobs := [];
    for index := 0 to |motionClips|
      invariant |jobs| == index
      invariant forall i :: 0 <= i < index ==>
                  && jobs[i].start == motionClips[i].start && jobs[i].end == motionClips[i].end
                  && jobs[i].name == ClipName(i + 1, ClipLength(motionClips[i].start, motionClips[i].end))
    {
      var clip := motionClips[index];
      var clipLength := ClipLength(clip.start, clip.end);
      var clipNumber := index + 1;
      jobs := jobs + [ClipJob(ClipName(clipNumber, clipLength), clip.start, clip.end)];
    }
    forall i, j | 0 <= i < j < |jobs|
      ensures jobs[i].name != jobs[j].name
    {
      if jobs[i].name == jobs[j].name {
        ClipNamesDistinct(i + 1, ClipLength(motionClips[i].start, motionClips[i].end),
                          j + 1, ClipLength(motionClips[j].start, motionClips[j].end));
      }
    }
  }
}
