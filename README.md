# Motion segmentation of skate-cv-py, in Dafny

`detect_movement` in `main.py` scans a video two frames at a time, asks an
OpenCV frame-differencing classifier whether the current frame pair shows
motion, and turns that per-frame verdict into a list of `{start, end}`
intervals in milliseconds. `create_clips` then writes each interval to
`output_clips/clip_<n>_<len>s.mp4`. This project models the decision logic of
both and proves its properties:

- `segmenter.dfy`, module `Segmenter`: the two-state machine (idle /
  `motion_started`) as `Step`, its run over a stream as `Exec`, the final flush
  and the returned list as `Segment`. `Reference` is an independent definition
  by maximal runs of motion samples, and `SegmentIsReference` proves the two
  agree. Lemmas cover the strict threshold, the unchecked final flush, self
  loops, ordering and non-overlap, and the count bound.
- `motion_detection.dfy`, module `MotionDetection`: the frame loop. Each pass
  of the loop is a `Tick`: the classifier's verdict, the capture position and
  whether the loop breaks after it. `Sampled` picks the odd-numbered frames up
  to the first one that ends the loop. `DetectMovement` is the loop itself, with
  `frame_count`, `motion_started`, `start_time` and `clips` as local variables,
  proved to return `Segment(Sampled(ticks))`.
- `clip_naming.dfy`, module `ClipNaming`: the clip number and length label,
  decimal printing of the numbers, the file name, a parser that reads a name
  back (`ClipNameRoundTrip`), and the naming loop of `create_clips` as
  `CreateClips`.

Timestamps are integer milliseconds. The capture position that the source
reads with `cap.get(cv2.CAP_PROP_POS_MSEC)` is `Tick.pos` while the loop runs.
At the final flush it is the parameter `finalPos`.

In three places `main.py` does not do what a reader might expect of a
motion-clip cutter. The model follows the code:
- An interval still open at the end of the stream is not held to the
  duration check that other intervals pass. A 150 ms final burst is kept:
  the code appends it unconditionally (main.py:86-87).
  `ShortFinalIntervalIsKept` proves this.
- There is no temporary file promoted on close, no writing of frames while
  motion lasts, and no numbering that continues after existing output files.
  Clips are numbered from 1 in every run and written only after detection has
  finished.
- `end > start` is not guaranteed for every interval. The code guarantees
  `end - start > no_motion_duration` only for intervals closed inside the
  stream. `SegmentInOrder` proves `start <= end` when positions do not
  decrease.

## Model

| member | source | states |
|---|---|---|
| Segmenter.Step | main.py:53-70 | after one classified frame, `motion_started` equals that frame's verdict; the clips only grow, by at most one interval |
| Segmenter.Exec | main.py:53-70 | over a stream of classified frames, the clips only grow, by at most one per frame, and `motion_started` ends equal to the last frame's verdict |
| Segmenter.SelfLoopsChangeNothing | main.py:53-57 | a motion frame while active, or a still frame while idle, leaves `motion_started`, `start_time` and `clips` unchanged |
| Segmenter.OpeningRecordsStart | main.py:53-56 | an idle-to-motion edge records the frame's position as `start_time` and appends nothing |
| Segmenter.ClosingKeepsIffLongerThanThreshold | main.py:57-70 | a motion-to-still edge returns to idle; it appends `(start_time, position)` if and only if the duration is strictly greater than `no_motion_duration`, and otherwise leaves the clips unchanged |
| Segmenter.Flush | main.py:85-87 | the flush keeps the clips as a prefix, adds exactly one interval when motion is still active and none otherwise, and that interval runs from `start_time` to `finalPos` |
| Segmenter.Segment | main.py:20-92 | the list returned for the classified frames: every interval except possibly the last is strictly longer than `no_motion_duration` |
| Segmenter.ClosedClipsExceedThreshold | main.py:62-64 | every interval appended by a closing edge lasted strictly longer than `no_motion_duration` |
| Segmenter.FinalFlushIsUnchecked | main.py:85-87 | the result is the intervals closed in the stream, all longer than the threshold, plus exactly one more interval `(start_time, finalPos)` when motion is still active at the end, with no duration check |
| Segmenter.ShortFinalIntervalIsKept | main.py:86-87 | 150 ms of motion still active at the end is returned under the default 500 ms threshold |
| Segmenter.ThresholdIsStrict | main.py:62-68 | an interval whose duration equals the threshold is dropped; one millisecond longer and it is kept |
| Segmenter.RunEnd | main.py:53-59 | the first still sample at or after a given index: every sample between them shows motion, and the one it returns, if inside the stream, does not |
| Segmenter.SegmentIsReference | main.py:53-87 | the returned list equals the run-based definition: each maximal run of motion frames gives one interval from its first frame's position to the position of the still frame ending it (kept if longer than the threshold), or to `finalPos` if the run reaches the end (always kept) |
| Segmenter.SegmentBoundaries | main.py:53-87 | every returned interval starts at the position of an idle-to-motion edge and ends at the position of the first still frame after it, or at `finalPos` when motion lasts to the end |
| Segmenter.ExecKeepsOrder | main.py:53-70 | while positions do not decrease, the closed intervals stay well formed, in order, and end no later than the latest position, and an open interval starts after all of them |
| Segmenter.SegmentInOrder | main.py:53-87 | with non-decreasing positions and a final position no earlier than them, every interval has `start <= end` and each ends no later than the next one starts |
| Segmenter.SegmentCount | main.py:53-64 | the number of returned intervals is at most the number of idle-to-motion edges among the processed frames |
| Segmenter.LongBurstIsKept | main.py:53-70 | 800 ms of motion closed by a still frame is one kept interval `(100, 900)` |
| Segmenter.ShortBurstIsDropped | main.py:62-68 | 200 ms of motion closed by a still frame is dropped |
| Segmenter.NoMergeAcrossGap | main.py:53-70 | two bursts separated by a single still frame give two intervals; nothing bridges the gap |
| MotionDetection.SampledAt | main.py:26-83 | from an odd-numbered frame at index `i` on, sample `j` the state machine sees is the frame at index `i + 2j`, no sampled frame before the last one ended the loop, and none is skipped: the samples are empty only when no frame is left, and the last one ended the loop or is the last odd-numbered frame |
| MotionDetection.SampledPositions | main.py:26-35 | sample `j` from index `i` on is the frame at index `i + 2j`, and no sampled frame before the last one ended the loop |
| MotionDetection.SampledComplete | main.py:26-83 | sampling stops only at a frame that ends the loop or when the frames run out: nothing is sampled only when no frame is left |
| MotionDetection.Sampled | main.py:26-83 | the frames the state machine sees, at most one per remaining frame; `SampledAt` pins down which |
| MotionDetection.EvenFramesIgnored | main.py:27-35 | two tick streams that agree on every odd-numbered frame give the same samples, whatever their even-numbered frames hold |
| MotionDetection.StopEndsStream | main.py:76-83 | nothing after the first classified frame that ends the loop (`q` key or failed read) reaches the state machine |
| MotionDetection.DetectMovement | main.py:20-87 | the loop over frames with `frame_count`, `motion_started`, `start_time` and `clips` returns exactly `Segment` of the sampled frames with the final position |
| MotionDetection.SegmentationIgnoresEvenFrames | main.py:27-35 | the returned intervals depend only on the odd-numbered frames |
| ClipNaming.ClipLength | main.py:107 | the length label is the duration in whole seconds truncated toward zero: non-negative with `label*1000 <= duration < label*1000 + 1000` when `end >= start`, the mirror image when `end < start` |
| ClipNaming.Decimal | main.py:109 | the decimal text of a number is non-empty and all digits; it starts with `0` only when it is exactly `"0"`, the text of zero (so a clip shorter than one second gets the label `0`), and a positive number never starts with `0` |
| ClipNaming.DecimalRoundTrip | main.py:109 | reading back the decimal text of `n` gives `n` |
| ClipNaming.IntText | main.py:107-109 | the f-string text of the length label: it starts with a minus sign exactly when the label is negative and contains no `_`, so the separator after the clip number is the first `_` |
| ClipNaming.IntTextRoundTrip | main.py:109 | reading back the text of an integer, with its minus sign, gives the integer |
| ClipNaming.ClipName | main.py:107-109 | the file name starts with `output_clips/clip_` and ends with `s.mp4`, with text between them |
| ClipNaming.ClipNameRoundTrip | main.py:107-109 | a clip's file name determines its number and its length label |
| ClipNaming.ShortClipName | main.py:107-109 | the first clip, 150 ms long, is written to `output_clips/clip_1_0s.mp4`: its length label is `0` |
| ClipNaming.ClipNamesDistinct | main.py:107-109 | two clips get the same file name only with the same number and length label |
| ClipNaming.CreateClips | main.py:98-109 | clip `i` (0-based) gets number `i + 1` and its length label, keeps its start and end, and no two clips of a run share a file name |

## Left out

- Frame differencing and classification (`absdiff`, `cvtColor`, `GaussianBlur`, `threshold`, `dilate`, `findContours`, `contourArea`, `drawContours`, main.py:37-51) are OpenCV calls. Their verdict is the input `Tick.motion`.
- Video I/O is foreign code whose seek and decode behaviour is not visible: `VideoCapture`, `read`, `set`, the position, FPS and size queries, `VideoWriter`, `write` and `release`. The positions become inputs (`Tick.pos`, `finalPos`). The frame-copy loop of `create_clips` (main.py:122-128) is not modelled; `ClipJob` only records the file name and span that the writer receives.
- The preview window, `waitKey` and `destroyAllWindows` are left out, and so is the `SHOW_VIDEO` flag. The `q` key only ends the stream, and a failed read does the same; both are `Tick.stop`.
- `while cap.isOpened()` is taken as always true: the source loop ends only through a break. The model's loop also ends when the tick array runs out, which stands for a run cut off at that point.
- A failed read on an even-numbered frame (main.py:33) is not checked by the source: `frame2` becomes `None` and the next odd-numbered frame passes it to `cv2.absdiff` (main.py:37). Read as written, that call can be expected to raise an exception, in which case `detect_movement` returns no clips at all for such a video: with the two reads before the loop, this is the case for a video with an odd number of frames. The model does not capture this failure. Its `Tick` stream only ends through `stop`, after an odd-numbered frame.
- `print` diagnostics (main.py:63, 66-68, 130, 140) and the `__main__` driver (main.py:137-142) are left out.
- Positions are floats in the source and integer milliseconds here. `ClipLength` divides exactly; the source divides in floating point, which differs only for differences beyond 2^53 ms.
