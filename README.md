# Sliding-window time-series dataset: a Dafny model

This project models the data preparation of the TimesFM finetuning example
(`notebooks/finetuning_example.py`). That code turns a one-dimensional series
into training samples for a forecasting model:

- `TimeSeriesDataset` stores a series, a context length C and a horizon length H.
  At construction it walks every start position with stride 1. For each start it
  stores a (context, future) pair: the next C observations, then the H after them.
  `__len__` reports how many pairs there are. `__getitem__` returns one pair with
  an all-zero padding mask as long as the context and the frequency tag 0.
- `prepare_datasets` cuts the series at `int(len(series) * train_split)`.
  The prefix becomes the training series and the suffix the validation series.
  Both parts are windowed with the same C and H.

The model has three modules:

- `Windowing` (`windowing.dfy`) is the pure specification. `Windows(s, C, H)` cuts
  `s` at C and C + H, drops the first element and repeats. `WindowCount(L, C, H)`
  is max(0, L − (C + H) + 1). The lemmas give the number of windows, each window
  by position, the stride-1 ordering, and how windows behave on a prefix or suffix.
- `Dataset` (`dataset.dfy`) is the class `TimeSeriesDataset`. Its `samples` field
  is filled by a loop in `PrepareSamples`, which is proved to produce exactly
  `Windows(series, C, H)`. `Len` and `GetItem` are read-only functions.
- `Partition` (`partition.dfy`) models the cut index, the two slices and
  `PrepareDatasets`.

Observations have a generic element type `T`, because the code never does
arithmetic on them. The padding mask is a sequence of `real` zeros and the
frequency tag is the one-element sequence `[0]`.

Two behaviours of the code are kept as written, although a stricter reading of
the dataset's purpose might expect otherwise:

- Lookup uses Python list indexing. An index in [−n, −1] counts from the end, and
  only indices outside [−n, n) raise an error; indices are not limited to [0, n).
- C and H may be 0. The code does not reject them, and with C = H = 0 a series of
  length L gives L + 1 pairs of empty slices.

## Model

| member | source | states |
|---|---|---|
| `Windowing.WindowsLength` | notebooks/finetuning_example.py:42-44 | the number of windows is max(0, len − (C+H) + 1), and there are none exactly when the series is shorter than C+H |
| `Windowing.WindowsAt` | notebooks/finetuning_example.py:44-48 | window i is (series[i..i+C), series[i+C..i+C+H)); the context has length C, the future has length H, and together they are series[i..i+C+H) |
| `Windowing.WindowAtStart` | notebooks/finetuning_example.py:44-47 | every start i with i+C+H ≤ len has a window, and that window is (series[i..i+C), series[i+C..i+C+H)); proved by induction on the series |
| `Windowing.SuffixWindowAt` | notebooks/finetuning_example.py:44-47 | when window k+j fits in the series, window j of series[k..] equals window k+j of the series |
| `Windowing.WindowsSuffix` | notebooks/finetuning_example.py:44-48 | stride 1: the windows from position i on are the windows of series[i..], so window i is series[i..] cut at C and C+H |
| `Windowing.WindowsOfPrefix` | notebooks/finetuning_example.py:44-48 | windowing a prefix of length k yields the first WindowCount(k) windows of the whole series, in order |
| `Windowing.WindowsOfSuffix` | notebooks/finetuning_example.py:44-48 | windowing the suffix from k yields windows whose j-th one is window k+j of the whole series |
| `Windowing.TenObservationsScenario` | notebooks/finetuning_example.py:44-48 | 1..10 with C=3, H=2 gives 6 windows; the first is ([1,2,3],[4,5]) and the last is ([6,7,8],[9,10]) |
| `Windowing.ShortSeriesScenario` | notebooks/finetuning_example.py:44 | a series of length 4 with C=3, H=2 gives no windows, without an error |
| `Dataset.TimeSeriesDataset.constructor` | notebooks/finetuning_example.py:25-37 | stores the series, C and H unchanged; afterwards the samples are exactly the windows of the series, and there are WindowCount of them |
| `Dataset.TimeSeriesDataset.PrepareSamples` | notebooks/finetuning_example.py:39-48 | the loop over start positions leaves `samples` equal to `Windows(series, C, H)`; its invariant says sample k is (series[k..k+C), series[k+C..k+C+H)) for each start k visited so far |
| `Dataset.TimeSeriesDataset.Len` | notebooks/finetuning_example.py:50-51 | the length is max(0, len(series) − (C+H) + 1), and it is 0 exactly when the series is shorter than C+H |
| `Dataset.TimeSeriesDataset.GetItem` | notebooks/finetuning_example.py:53-62 | an index succeeds exactly when it is in [−n, n), and a negative index counts from the end; the sample at position i has context series[i..i+C), future series[i+C..i+C+H), a padding mask of zeros as long as the context, and frequency tag [0] |
| `Partition.TruncDiv` | notebooks/finetuning_example.py:80 | `int()` of the exact product truncates toward zero: q·b ≤ a < (q+1)·b for a ≥ 0, and (q−1)·b < a ≤ q·b for a < 0 |
| `Partition.TrainSizeInRange` | notebooks/finetuning_example.py:80 | for a fraction in [0, 1] the cut index lies in [0, len] and is at most len·f |
| `Partition.SplitSeries` | notebooks/finetuning_example.py:81-82 | training ++ validation == series and the lengths sum to len; a cut in [0, len] gives series[..k) and series[k..); the code's slice rules for cuts past the end or negative are modelled too |
| `Partition.SplitWindows` | notebooks/finetuning_example.py:80-87 | the training windows are the first WindowCount(k) windows of the whole series; validation window j is window k+j of the whole series; windows that straddle the cut belong to neither part |
| `Partition.PrepareDatasets` | notebooks/finetuning_example.py:65-89 | returns two fresh valid datasets over the two halves of the split at int(len·f), with the same C and H; the default fraction is 4/5; the two series concatenate back to the input |
| `Partition.DefaultSplitScenario` | notebooks/finetuning_example.py:80-82 | with fraction 0.8, ten observations split into eight for training and two for validation |

## Left out

- `get_model` (notebooks/finetuning_example.py:92-111) is not modelled. It builds a neural model and downloads and loads a checkpoint through foreign libraries.
- `plot_predictions` is not modelled. It runs floating-point neural inference and writes an image.
- `get_data` is not modelled. It downloads prices over the network; the only part kept is its fraction 0.8, which is the default of `PrepareDatasets`.
- `single_gpu_example`, `setup_process` and `multi_gpu_example` are not modelled. They are process orchestration, environment variables and distributed process-group setup around an external trainer.
- The conversion of context and future to float32 tensors is not modelled. Elements stay of the generic type `T`.
- Floating-point rounding of `len(series) * train_split` is not modelled. The fraction is an exact `num / den` with `den > 0`, and the product is exact before truncation.
- Negative context or horizon lengths are not modelled. C and H are `nat`; with negative values, Python's slicing would wrap around, and the code never passes such values.
- NumPy slices are views that share storage with the series. The model copies values, which is equivalent here because no slice is ever written to.
- The attributes `series`, `context_length` and `horizon_length` are `const` fields. The code never reassigns them after construction.
