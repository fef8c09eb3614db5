# Egg timer core: a verified model

This project models the integer core of the drag-to-set egg timer in
`app/src/main/java/com/dandc87/eggy/MainActivity.kt`. The core has three parts.

- **Time text** (`formatTime`). A non-negative millisecond count is split into
  minutes, seconds and milliseconds and printed as `M:SS:mmm`. Module
  `TimeFormat` models it, and module `Decimal` models the digit rendering of
  `%d`, `%02d`, `%03d` and `toString`. A parser `ParseTime` reads the text back.
  The model proves formatting and parsing inverse in both directions.
- **Countdown state** (`MyApp`). The state is the integer `countdownMillis` and
  the handle `currentCountdown` of the coroutine launched when a drag stops.
  Module `Countdown` gives each callback (`onDelta`, `onDragStarted`,
  `onDragStopped`) and each rendered frame as a pure transition on a `State`.
  Class `Countdown.Timer` holds the two fields and performs the same
  transitions in place. Its `RunFrames` loop feeds frame timestamps to the
  launched job. The job waits for one frame that fixes `startTime` and reads
  `startCountdown`. After that, each frame runs the `do … while` body once, and
  the loop ends once the value is 0.
- **Tick ruler** (`EggTimer`). From the integer tick count and the integer
  first-tick index, `Ruler.Ticks` builds the rows that `repeat(numTicks + 1)`
  emits: `Big(label)` for tick numbers divisible by 5 and `Small` for the rest.

The countdown value has no floor while dragging: deltas are added as they
come, so the value goes negative when dragged below zero. The shown text
(line 136) and every loop step (lines 115-116) clamp at 0; the first loop step
is the one that lifts a negative value left by dragging up to 0. In the model,
`Delta` has no floor, `NegativeWhileDragging` shows a value of -1500, and
`DisplayText` and `LoopValue` clamp.

## Model

| member | source | states |
|---|---|---|
| `Decimal.FromNat` | app/src/main/java/com/dandc87/eggy/MainActivity.kt:148 | `%d` of a non-negative count is a non-empty digit string with no leading zero, and it starts with '0' exactly when the count is 0 |
| `Decimal.ValueOfFromNat` | app/src/main/java/com/dandc87/eggy/MainActivity.kt:148 | reading the `%d` text back gives the number |
| `Decimal.FromNatOfValue` | app/src/main/java/com/dandc87/eggy/MainActivity.kt:148 | every canonical digit string is the `%d` text of its own value |
| `Decimal.PadZero` | app/src/main/java/com/dandc87/eggy/MainActivity.kt:148 | `%0Nd`: the `%d` digits left-padded with zeros to at least N characters; always all digits; exact width and value in PadZeroExact, converse in PadZeroOfValue |
| `Decimal.PadZeroExact` | app/src/main/java/com/dandc87/eggy/MainActivity.kt:148 | `%0Nd` of a value below 10^N is exactly N digits and reads back to the value |
| `Decimal.PadZeroOfValue` | app/src/main/java/com/dandc87/eggy/MainActivity.kt:148 | every digit string of length N is the `%0Nd` text of its own value |
| `TimeFormat.Minutes` | app/src/main/java/com/dandc87/eggy/MainActivity.kt:145 | `durationMillis / 60000`; recombination and bounds in FieldBounds |
| `TimeFormat.Seconds` | app/src/main/java/com/dandc87/eggy/MainActivity.kt:146 | `(durationMillis % 60000) / 1000`; below 60 by FieldBounds |
| `TimeFormat.Millis` | app/src/main/java/com/dandc87/eggy/MainActivity.kt:147 | `durationMillis % 60000 % 1000`; below 1000 by FieldBounds |
| `TimeFormat.FormatFields` | app/src/main/java/com/dandc87/eggy/MainActivity.kt:148 | `String.format("%d:%02d:%03d", …)` as the `%d` text, ':', the 2-padded seconds, ':', the 3-padded millis; shape in FormatTime, widths in FieldWidths |
| `TimeFormat.FieldBounds` | app/src/main/java/com/dandc87/eggy/MainActivity.kt:145-147 | minutes*60000 + seconds*1000 + millis equals the input, with seconds < 60 and millis < 1000 |
| `TimeFormat.FieldWidths` | app/src/main/java/com/dandc87/eggy/MainActivity.kt:146-148 | the `%02d` and `%03d` fields are always exactly 2 and 3 characters wide |
| `TimeFormat.FormatTime` | app/src/main/java/com/dandc87/eggy/MainActivity.kt:144-149 | the text has the `M:SS:mmm` shape: canonical minutes, ':', two digits below 60, ':', three digits; its length is the minute digits plus 7 |
| `TimeFormat.ParseFormat` | app/src/main/java/com/dandc87/eggy/MainActivity.kt:144-149 | parsing the formatted text gives back the original millisecond count |
| `TimeFormat.FormatParse` | app/src/main/java/com/dandc87/eggy/MainActivity.kt:144-149 | every text the parser accepts is the formatting of the count it reads, so the format is injective |
| `TimeFormat.FormatZero` | app/src/main/java/com/dandc87/eggy/MainActivity.kt:148 | 0 is shown as "0:00:000" |
| `TimeFormat.FormatExamples` | app/src/main/java/com/dandc87/eggy/MainActivity.kt:144-149 | 65432 is shown as "1:05:432" and 3600000 as "60:00:000" |
| `TimeFormat.DisplayText` | app/src/main/java/com/dandc87/eggy/MainActivity.kt:136 | a value of 0 or less is shown as "0:00:000"; a non-negative value is shown as text that parses back to it |
| `Countdown.Delta` | app/src/main/java/com/dandc87/eggy/MainActivity.kt:85 | `onDelta`: the value plus the rounded delta, with no floor, job unchanged; sums of deltas in NoStaleUpdates |
| `Countdown.Cancel` | app/src/main/java/com/dandc87/eggy/MainActivity.kt:107 | `Job.cancel()`: marks a job cancelled, leaves a completed job as it is; effect in DragStartOnlyCancels and InertFrames |
| `Countdown.DragStarted` | app/src/main/java/com/dandc87/eggy/MainActivity.kt:106-108 | `onDragStarted`: cancels the current job and changes nothing else; stated in DragStartOnlyCancels |
| `Countdown.DragStopped` | app/src/main/java/com/dandc87/eggy/MainActivity.kt:109-110 | `onDragStopped`: replaces the handle with a freshly launched job waiting for its first frame; capture stated in DragStopCapturesValue |
| `Countdown.LoopValue` | app/src/main/java/com/dandc87/eggy/MainActivity.kt:115-116 | `(startCountdown - delta).coerceAtLeast(0)`: max(0, startCountdown - (frameTime - startTime)); monotonicity in LoopNeverIncreases |
| `Countdown.Frame` | app/src/main/java/com/dandc87/eggy/MainActivity.kt:111-117 | one frame: AwaitingStart sets startTime and reads the current value, Counting assigns LoopValue and finishes at 0, otherwise unchanged; per step in LoopStep, whole trace in LoopTrace |
| `Countdown.Frames` | app/src/main/java/com/dandc87/eggy/MainActivity.kt:111-117 | the frames applied in order; whole trace after a drag stop in LoopTrace, no effect on a stopped job in InertFrames |
| `Countdown.DragStartOnlyCancels` | app/src/main/java/com/dandc87/eggy/MainActivity.kt:106-108 | a drag start leaves the value alone, keeps a handle if there was one, and leaves no job running |
| `Countdown.DragStopCapturesValue` | app/src/main/java/com/dandc87/eggy/MainActivity.kt:109-112 | the job a drag stop launches takes its first frame as startTime and the value at the drag stop as startCountdown, and changes nothing else |
| `Countdown.LoopStep` | app/src/main/java/com/dandc87/eggy/MainActivity.kt:113-117 | one loop step sets the value to max(0, startCountdown - elapsed), never negative, and the job goes on running iff that value is positive |
| `Countdown.InertFrames` | app/src/main/java/com/dandc87/eggy/MainActivity.kt:107-117 | frames change nothing when the job is absent, cancelled or finished: a cancelled loop makes no further update |
| `Countdown.LoopTrace` | app/src/main/java/com/dandc87/eggy/MainActivity.kt:110-117 | after a drag stop at value m: while every step so far was positive, the job runs and the value is the last step's max(0, m - elapsed); once any step gave 0, the job is finished at 0 |
| `Countdown.NonPositiveStartEndsAfterOneStep` | app/src/main/java/com/dandc87/eggy/MainActivity.kt:113-117 | with a start value of 0 or less and a clock that does not run backwards, the loop ends after its first step at 0, and later frames keep it there |
| `Countdown.LoopNeverIncreases` | app/src/main/java/com/dandc87/eggy/MainActivity.kt:113-116 | between loop steps i <= j the value never increases when frame j is no earlier than frame i, and it strictly decreases while positive when frame j is later |
| `Countdown.NoStaleUpdates` | app/src/main/java/com/dandc87/eggy/MainActivity.kt:82-117 | from a drag start to the next drag stop, the value is the old value plus the sum of the drag deltas, with no floor, and the job stays cancelled whatever frames arrive |
| `Countdown.NegativeWhileDragging` | app/src/main/java/com/dandc87/eggy/MainActivity.kt:136 | dragging 1500 ms below zero leaves the value at -1500, and it is displayed as "0:00:000" |
| `Countdown.Timer.constructor` | app/src/main/java/com/dandc87/eggy/MainActivity.kt:78-79 | the value starts at 0 with no job |
| `Countdown.Timer.OnDelta` | app/src/main/java/com/dandc87/eggy/MainActivity.kt:82-86 | the fields afterwards are the old value plus the delta, and the job is unchanged |
| `Countdown.Timer.OnDragStarted` | app/src/main/java/com/dandc87/eggy/MainActivity.kt:106-108 | the fields afterwards are the old value and the cancelled job |
| `Countdown.Timer.OnDragStopped` | app/src/main/java/com/dandc87/eggy/MainActivity.kt:109-110 | the handle afterwards is a freshly launched job, and the value is unchanged |
| `Countdown.Timer.RunFrames` | app/src/main/java/com/dandc87/eggy/MainActivity.kt:110-118 | the fields afterwards are the state the frame transitions give for the delivered frames, in order |
| `Ruler.TickAt` | app/src/main/java/com/dandc87/eggy/MainActivity.kt:180-188 | the row for one tick number: `Big` labelled with the `toString` of the number when it is divisible by 5, `Small` otherwise; stated per row in TicksShape |
| `Ruler.Ticks` | app/src/main/java/com/dandc87/eggy/MainActivity.kt:179-189 | the rows `repeat(numTicks + 1)` emits, starting at tick number floor(firstTick); shape in TicksShape, OneBigInFive |
| `Ruler.Rows` | app/src/main/java/com/dandc87/eggy/MainActivity.kt:179-189 | count rows, and row i is the tick for number first + i |
| `Ruler.TicksShape` | app/src/main/java/com/dandc87/eggy/MainActivity.kt:166-189 | numTicks + 1 rows, none for a negative count; row index is big iff index + firstTick is divisible by 5, and a big row's label reads back as that number |
| `Ruler.CenteredRulerStartsAtZero` | app/src/main/java/com/dandc87/eggy/MainActivity.kt:167-183 | a ruler whose first tick index is 0 starts with the big tick labelled "0" |
| `Ruler.OneBigInFive` | app/src/main/java/com/dandc87/eggy/MainActivity.kt:179-189 | any five consecutive rows hold exactly one big tick |

## Left out

- The Compose UI tree is not modelled: `Scaffold`, `TopAppBar`, `Row`, `Icon`, `Text`, theming, how `BigTick` and `SmallTick` draw, the previews and `MainActivity.onCreate`. It is presentation over a framework outside this model.
- The floating-point and `Dp` geometry is not modelled: the pixel-to-millisecond conversion with `roundToInt` (lines 83-85), `yDelta`, `midHeight`, `centeredYDelta`, `offset`, `invisibleTicks` and `ceil(maxHeight / tickSpacing)`. `OnDelta` takes the rounded millisecond delta. `Ticks` takes the integer tick count and `floor(firstTick)`.
- Coroutine scheduling and the frame clock are not modelled. `launch`, `Job.cancel()` and `withFrameMillis` become a job record with a phase and a cancelled flag, and frame timestamps are an input sequence. Cancellation takes effect at the next frame, which matches cooperative cancellation at the suspension point.
- Countdown.DragStopped: only the latest job is kept. The source overwrites the handle without cancelling the old job. The draggable always calls `onDragStarted` first, which cancels it, so the dropped job could make no further update.
- Countdown.LoopNeverIncreases: the promise covers loop steps only. The first step raises a negative value left by dragging up to 0.
- The Long-to-Int truncation of `delta.toInt()` (line 115) and Int overflow are not modelled. Integers are unbounded, so the model assumes values stay in range.
- Locale handling in `String.format` and `stringResource` are not modelled. The digit strings of `%d`, `%02d`, `%03d` and `toString` are defined directly in `Decimal`.
- Rendering the ruler twice with the same inputs gives the same rows. This follows from `Ticks` being a function, so no lemma states it.
