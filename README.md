# Embedded signal-processing core, modelled in Dafny

This project models the fixed-memory data structures of the repository's
embedded C firmware (`c_embedded/`). The firmware samples a sensor, keeps the
raw samples in a ring buffer, smooths them with an integer moving average and
detects peaks to estimate a heart rate. The model covers three things:

- **Ring buffer** (`circular_buffer.h`, `circular_buffer.c`): 256 slots with
  `head`, `tail` and `count`. Positions wrap by masking with `BUFFER_SIZE - 1`,
  and a push on a full buffer overwrites the oldest element.
  - Module `CircularBuffer`, class `Buffer`.
  - The ghost field `Contents` is the FIFO view, oldest first.
  - `Valid()` ties `Contents` to the array and keeps `count <= 256` and
    `head == (tail + count) mod 256`.
- **Moving-average filter** (`moving_average.h`, `moving_average.c`): 8 `int32`
  slots, a running `sum`, a wrapping `index` and a saturating `count`.
  - Module `MovingAverageFilter`, class `MovingAverage`.
  - The ghost field `Recent` is the list of samples the window covers: the
    last min(n, 8) of the n samples filtered since the last reset.
  - `Valid()` keeps `sum` equal to the sum of the slots.
  - Every output is stated as `Average(Recent)`: floor mean when the window is
    full, truncated mean during start-up, and 0 before the first sample.
- **Peak detector** (`main.c`, `PeakDetector` and its two functions):
  module `PeakDetection`, class `Detector`. The ghost field `Peaks` records the
  reported peak sample numbers. `Valid()` keeps consecutive peaks more than
  `min_peak_distance` apart.

Two shared modules support the three above:

- `CTypes` holds the C vocabulary: fixed-width integer types, bitwise AND, the
  arithmetic right shift and C's truncating division. Each is defined on
  unbounded integers and proved equal to the arithmetic it stands for.
- `Fifo` holds the bounded-queue view that both rings refine.

The device-registry and broadcast server that the Android client connects to
runs as a separate service and is not modelled.

## Model

| member | source | states |
|---|---|---|
| `CTypes.MaskIsMod` | c_embedded/circular_buffer.h:17 | For every i and k, `i & (2^k - 1)` equals `i mod 2^k`. This is why a power-of-two size lets a ring wrap with a mask. |
| `CTypes.ShiftIsFloorDiv` | c_embedded/moving_average.c:37 | An arithmetic right shift by n equals division by 2^n, rounded toward minus infinity. |
| `CTypes.CDiv` | c_embedded/moving_average.c:40 | C's `/` truncates toward zero. For a >= 0: `q*b <= a < q*b + b`. For a < 0: `q*b - b < a <= q*b`. |
| `Fifo.BoundedAppend` | c_embedded/circular_buffer.h:32-38 | Appending to a queue of capacity `cap` leaves at most `cap` elements: the newest `cap` elements of the old queue with the new one appended. When the queue was full, its oldest element is dropped. |
| `Fifo.AppendAllKeepsNewest` | c_embedded/circular_buffer.c:19-36 | After any run of appends, the queue holds exactly the newest `cap` values it was given, oldest first. This is the FIFO order with overwrite-oldest. |
| `CircularBuffer.Wrap` | c_embedded/circular_buffer.c:26 | The masked successor `i & (BUFFER_SIZE - 1)` equals `i mod 256`. |
| `CircularBuffer.SlotIsMod` | c_embedded/circular_buffer.c:70 | The slot `i` places after `t` is `(t + i) mod 256`, which is the position `cb_peek` reads. |
| `CircularBuffer.Buffer.constructor` | c_embedded/circular_buffer.c:8-17 | A new buffer is empty, with `head`, `tail` and `count` all 0 and every slot 0. |
| `CircularBuffer.Buffer.Init` | c_embedded/circular_buffer.c:8-17 | After init the buffer is valid and empty, `head == tail == count == 0`, and all 256 slots are zeroed. |
| `CircularBuffer.Buffer.Push` | c_embedded/circular_buffer.c:19-36 | Returns true iff there was room. `Contents` becomes `BoundedAppend(old Contents, value, 256)`: append, or drop the oldest and append when full. The count rises by one or stays at 256. `head` advances by one mod 256, and `tail` advances too only when the buffer was full. Only the slot at the old `head` changes. |
| `CircularBuffer.Buffer.Pop` | c_embedded/circular_buffer.c:38-51 | Returns false iff the buffer is empty. In that case nothing changes and the caller's value is left as it was. Otherwise it yields the oldest element, leaves the rest in order, decrements the count, advances `tail` by one mod 256 and leaves `head` alone. |
| `CircularBuffer.Buffer.IsEmpty` | c_embedded/circular_buffer.c:53-55 | True iff the FIFO view is empty. |
| `CircularBuffer.Buffer.IsFull` | c_embedded/circular_buffer.c:57-59 | True iff the FIFO view holds 256 elements. |
| `CircularBuffer.Buffer.Count` | c_embedded/circular_buffer.c:61-63 | Returns the number of held elements, at most 256. |
| `CircularBuffer.Buffer.Peek` | c_embedded/circular_buffer.c:65-73 | Succeeds iff `index < count`, and then yields the element `index` places after the oldest. On failure the caller's value is untouched. Nothing is removed. |
| `CircularBuffer.Buffer.Mean` | c_embedded/circular_buffer.c:75-89 | Returns 0 when empty. Otherwise `mean * count` equals the sum of the held elements, over the reals. |
| `CircularBuffer.Buffer.Clear` | c_embedded/circular_buffer.c:91-95 | The buffer becomes valid and empty with `head == tail == count == 0`. The data slots are not modified. |
| `MovingAverageFilter.ShiftDividesByWindowSize` | c_embedded/moving_average.h:16-18 | Shifting by `MA_WINDOW_SHIFT` (3) is floor division by `MA_WINDOW_SIZE` (8). |
| `MovingAverageFilter.Wrap` | c_embedded/moving_average.c:27 | `i & (MA_WINDOW_SIZE - 1)` equals `i mod 8`. |
| `MovingAverageFilter.SumUpdate` | c_embedded/moving_average.c:20-24 | Overwriting one slot changes the sum by the new value minus the old one, so the incremental update keeps `sum` equal to the sum of the slots. |
| `MovingAverageFilter.Average` | c_embedded/moving_average.c:34-41 | Gives the filter's output for the covered samples. It is 0 for none. For a full window it is the floor mean. During start-up it is the mean truncated toward zero. |
| `MovingAverageFilter.AverageWithin` | c_embedded/moving_average.h:33-39 | An output lies between the smallest and largest of the samples it averages. |
| `MovingAverageFilter.LayoutAfterWrite` | c_embedded/moving_average.c:20-32 | Writing at `index` and advancing it appends the sample to the covered ones, dropping the oldest once 8 are covered. |
| `MovingAverageFilter.WindowSum` | c_embedded/moving_average.c:8-32 | The slots sum to the sum of the covered samples, because slots not yet written still hold 0. |
| `MovingAverageFilter.MovingAverage.constructor` | c_embedded/moving_average.c:8-16 | A new filter has `sum`, `index` and `count` at 0, all slots 0 and no covered samples. |
| `MovingAverageFilter.MovingAverage.Init` | c_embedded/moving_average.c:8-16 | Sets `sum`, `index` and `count` to 0, zeroes all 8 slots and leaves no covered samples. |
| `MovingAverageFilter.MovingAverage.Reset` | c_embedded/moving_average.c:44-46 | Leaves exactly the state `Init` leaves. |
| `MovingAverageFilter.MovingAverage.Filter` | c_embedded/moving_average.c:18-42 | Replaces the slot at the old `index` with the sample. The covered samples become `BoundedAppend(old, sample, 8)`. `index` advances by one mod 8 and `count` saturates at 8. The running-sum invariant is kept, and the result is `Average` of the covered samples. |
| `MovingAverageFilter.MovingAverage.GetAverage` | c_embedded/moving_average.c:48-58 | Returns `Average` of the covered samples without changing state. This is the value the last `Filter` returned, or 0 before any sample. |
| `PeakDetection.SpacedPairwise` | c_embedded/main.c:57-61 | With a non-negative minimum distance, if consecutive reported peaks are more than that many samples apart, then so is every pair of peaks. |
| `PeakDetection.Detector.constructor` | c_embedded/main.c:45-50 | Sets the given threshold and minimum distance, with `last_value = 0`, `last_peak_sample = -1000` and no peaks reported. |
| `PeakDetection.Detector.Update` | c_embedded/main.c:53-66 | Returns 1 iff the value is above the threshold, above the previous value, and more than `min_peak_distance` samples after the last peak; otherwise 0. The last peak moves to `sample_num` only on a peak. `last_value` always becomes `value`. The threshold and distance never change. Consecutive peaks stay spaced. |

## Left out

- Floating point: the source's `float` samples are modelled as `real`. The ring
  buffer and the peak detector only copy and compare them, which reals model
  exactly for finite floats.
- NaN and the infinities are not modelled, because reals cannot represent
  them. In particular the peak detector's NaN behaviour is lost
  (`c_embedded/main.c:57-58`):
  - a NaN `value` is never reported as a peak;
  - once `last_value` is NaN, the next sample also fails `value > last_value`.
- `CircularBuffer.Buffer.Mean`: states the exact real mean. It does not model
  the rounding of the source's `float` summation and division.
- `MovingAverageFilter.MovingAverage.Filter`: requires every sample to lie in
  [-2^28, 2^28). This is narrower than the full `int32` range.
  - The bound keeps the `int32` running sum of 8 samples from overflowing,
    which is undefined behaviour in C.
  - The source itself does not check its inputs.
- `>>` on a negative `int32_t` is implementation-defined in C. It is modelled
  as an arithmetic shift, i.e. floor division, which is what common compilers
  do.
- `PeakDetection.Detector.Update`: requires `sample_num - last_peak_sample` to
  fit in `int`. Signed overflow of that subtraction is undefined behaviour in C.
- `cb_pop` and `cb_peek` write through an out-pointer only on success. The
  model passes the caller's current value in as `prior` and returns it
  unchanged on failure.
- The C structs live in caller-provided storage. The constructors only
  allocate the arrays and then run the modelled `cb_init` / `ma_init` bodies.
  The model does not capture one buffer being aliased by two callers.
- `main` and `read_adc_simulated` in `c_embedded/main.c` are not modelled.
  They use `rand`, `sinf`, float variance, `sqrtf` and `printf`.
- The Python signal-processing scripts are not modelled: they are
  floating-point numerics delegated to numpy/scipy. The Python ring-buffer
  wrapper in `python/main.py` is a thin wrapper over `deque` that duplicates
  the C buffer.
- The Android client (`LocationService.java`, `MainActivity.java`,
  `BootReceiver.java`) is not modelled: it is framework I/O and UI.
