/**
 * Frame names in `generate_images` (src/plex/generator.py:126, 174-177).
 * ffmpeg writes frame `k` (from 1) as `img-%06d.jpg`; the rename loop reads
 * the number back with `int(name.strip('img-').strip('.jpg')) - 1` and renames
 * the file to its start time `{frame * interval:010d}.jpg`. `strip` removes a
 * set of characters from both ends, not a prefix or a suffix.
 */
module Frames {
  import opened Wrappers
  import opened Text
  import opened Sorting

  /** The largest timestamps that still fit ten digits are below this. */
  const TimestampBound: nat := 10_000_000_000

  /** The name the output pattern `img-%06d.jpg` gives frame `k`. */
  function ImgName(k: nat): string {
    "img-" + Decimal(k, 6) + ".jpg"
  }

  /** glob's `img*.jpg`: starts with "img" and ends with ".jpg", the two not overlapping. */
  predicate MatchesGlob(name: string) {
    |name| >= 7 && StartsWith(name, "img") && EndsWith(name, ".jpg")
  }

  /** `int(name.strip('img-').strip('.jpg')) - 1`; None where `int` raises ValueError. */
  function FrameNumber(name: string): Option<int> {
    match ParseInt(Strip(Strip(name, "img-"), ".jpg"))
    case None => None
    case Some(v) => Some(v - 1)
  }

  /** `f'{frame_second:010d}.jpg'` for `frame_second = frame * interval`. */
  function NewName(frame: int, interval: int): string {
    Format010(frame * interval) + ".jpg"
  }

  /** `strip('img-')` on ffmpeg's name: the prefix goes, and of ".jpg" only the `g`. */
  lemma StripImgPrefix(d: string)
    requires |d| > 0 && IsDigit(d[0]) && IsDigit(d[|d| - 1])
    ensures Strip("img-" + d + ".jpg", "img-") == d + ".jp"
  {
    StripImgLeft(d);
    StripImgRight(d);
  }

  lemma StripImgLeft(d: string)
    requires |d| > 0 && IsDigit(d[0])
    ensures StripLeft("img-" + d + ".jpg", "img-") == d + ".jpg"
  {
    var rest := d + ".jpg";
    assert rest[0] == d[0];
    assert rest[0] !in "img-";
    StripLeftUpTo("img-", rest, "img-");
    assert "img-" + d + ".jpg" == "img-" + rest;
  }

  lemma StripImgRight(d: string)
    requires |d| > 0 && IsDigit(d[|d| - 1])
    ensures StripRight(d + ".jpg", "img-") == d + ".jp"
  {
    assert d + ".jpg" == (d + ".jp") + "g";
    StripRightSuffix(d + ".jp", "g", "img-");
    assert (d + ".jp")[|d + ".jp"| - 1] == 'p';
  }

  /** `strip('.jpg')` on what is left: the digits stay and ".jp" goes. */
  lemma StripJpgSuffix(d: string)
    requires |d| > 0 && IsDigit(d[0]) && IsDigit(d[|d| - 1])
    ensures Strip(d + ".jp", ".jpg") == d
  {
    assert (d + ".jp")[0] == d[0];
    StripLeftKeeps(d + ".jp", ".jpg");
    StripRightSuffix(d, ".jp", ".jpg");
  }

  /** Reading ffmpeg's name for frame `k` back gives `k - 1`: the strips stop at the digits. */
  lemma FrameNumberOfImg(k: nat)
    ensures FrameNumber(ImgName(k)) == Some(k - 1)
  {
    FrameNumberOfDigits(Decimal(k, 6));
  }

  /** The strips stop at the digits of any ffmpeg-style name. */
  lemma FrameNumberOfDigits(d: string)
    requires |d| > 0 && IsDigits(d)
    ensures FrameNumber("img-" + d + ".jpg") == Some(DigitsValue(d) - 1)
  {
    StripsOfImg(d);
    ParseDigits(d);
    assert Strip(Strip("img-" + d + ".jpg", "img-"), ".jpg") == d;
  }

  lemma StripsOfImg(d: string)
    requires |d| > 0 && IsDigit(d[0]) && IsDigit(d[|d| - 1])
    ensures Strip(Strip("img-" + d + ".jpg", "img-"), ".jpg") == d
  {
    StripImgPrefix(d);
    StripJpgSuffix(d);
  }

  /** A renamed frame never matches `img*.jpg`, so renaming cannot clobber a frame still to be renamed. */
  lemma NewNameNotGlob(frame: int, interval: int)
    ensures !MatchesGlob(NewName(frame, interval))
  {
    var v := frame * interval;
    var n := NewName(frame, interval);
    if v < 0 {
      assert n[0] == '-';
    } else {
      assert n[0] == Decimal(v, 10)[0];
      assert IsDigit(n[0]);
    }
    assert n[..3][0] == n[0];
  }

  /** Format010 without its sign tells the value back. */
  lemma Format010Injective(x: int, y: int)
    requires Format010(x) == Format010(y)
    ensures x == y
  {
    var fx, fy := Format010(x), Format010(y);
    Format010Sign(x);
    Format010Sign(y);
    if x < 0 {
      assert fx[1..] == Decimal(-x, 9) && fy[1..] == Decimal(-y, 9);
    }
  }

  /** The formatted value starts with a minus sign exactly when it is negative. */
  lemma Format010Sign(v: int)
    ensures Format010(v) != "" && (Format010(v)[0] == '-' <==> v < 0)
  {
    if v >= 0 {
      assert IsDigit(Decimal(v, 10)[0]);
    }
  }

  /** For a non-zero interval distinct frames get distinct names. */
  lemma NewNameInjective(a: int, b: int, interval: int)
    requires interval != 0 && NewName(a, interval) == NewName(b, interval)
    ensures a == b
  {
    var x, y := Format010(a * interval), Format010(b * interval);
    assert |x| == |y| by {
      assert |x + ".jpg"| == |y + ".jpg"|;
    }
    assert x == (x + ".jpg")[..|x|] && y == (y + ".jpg")[..|y|];
    Format010Injective(a * interval, b * interval);
    MulCancel(a, b, interval);
  }

  lemma MulCancel(a: int, b: int, c: int)
    requires c != 0 && a * c == b * c
    ensures a == b
  {
    assert (a - b) * c == a * c - b * c;
  }

  lemma Pow10Ten()
    ensures Pow10(10) == TimestampBound
  {
    assert Pow10(2) == 100;
    assert Pow10(4) == 10000;
    assert Pow10(6) == 1000000;
    assert Pow10(8) == 100000000;
  }

  lemma MulMonotone(a: int, b: int, c: int)
    requires c > 0
    ensures a < b <==> a * c < b * c
  {
    if a < b {
      assert b * c - a * c == (b - a) * c;
    } else {
      assert a * c - b * c == (a - b) * c;
    }
  }

  /**
   * For a positive interval and timestamps below 10^10, names compare as
   * strings exactly as the frames compare as numbers.
   */
  lemma NewNameOrder(a: nat, b: nat, interval: int)
    requires interval > 0 && a * interval < TimestampBound && b * interval < TimestampBound
    ensures LexLess(NewName(a, interval), NewName(b, interval)) <==> a < b
  {
    var x, y := a * interval, b * interval;
    Pow10Ten();
    DecimalLength(x, 10);
    DecimalLength(y, 10);
    LexAppend(Decimal(x, 10), Decimal(y, 10), ".jpg", ".jpg");
    LexIrreflexive(".jpg");
    DecimalOrder(x, y, 10);
    MulMonotone(a, b, interval);
  }

  /** The renamed frames 0 .. n-1, in frame order. */
  function TimeNames(n: nat, interval: int): (r: seq<string>)
    ensures |r| == n && forall k | 0 <= k < n :: r[k] == NewName(k, interval)
  {
    seq(n, k requires 0 <= k < n => NewName(k, interval))
  }

  /** Frame order is string order for the renamed frames. */
  lemma TimeNamesSorted(n: nat, interval: int)
    requires interval > 0 && (n == 0 || (n - 1) * interval < TimestampBound)
    ensures Sorted(TimeNames(n, interval))
  {
    var s := TimeNames(n, interval);
    forall i, j | 0 <= i < j < n ensures !LexLess(s[j], s[i]) {
      TimeNamesPair(n, interval, i, j);
    }
  }

  lemma TimeNamesPair(n: nat, interval: int, i: nat, j: nat)
    requires interval > 0 && i < j < n && (n - 1) * interval < TimestampBound
    ensures !LexLess(NewName(j, interval), NewName(i, interval))
  {
    MulMonotone(i, n - 1, interval);
    MulMonotone(j, n - 1, interval);
    NewNameOrder(j, i, interval);
  }

  /**
   * `sorted` over any listing of the renamed frames gives them back in frame
   * order, so the BIF stores them by time.
   */
  lemma SortTimeNames(names: seq<string>, n: nat, interval: int)
    requires interval > 0 && (n == 0 || (n - 1) * interval < TimestampBound)
    requires multiset(names) == multiset(TimeNames(n, interval))
    ensures Sort(names) == TimeNames(n, interval)
  {
    TimeNamesSorted(n, interval);
    SortPermutation(names, TimeNames(n, interval));
    SortSorted(TimeNames(n, interval));
  }
}
