# Hand-drawn symbol recogniser: the label pipeline

This project models, in Dafny, the part of the hand-drawn maths symbol recogniser that carries a label from the text typed at collection time to the class name printed at prediction time. The same model spans the collector (`recolector.py`), the training script (`entrenar_modelo.py`) and the predictor (`main.py`).

- **Collector** (`collector.dfy`). The typed text is normalised to a canonical label:
  - an all-digit string `s` becomes `num_s`;
  - seven symbols are looked up in a fixed table;
  - anything else passes through unchanged.

  A drawing is then saved as `<label>_<n>.png`. Here `n` counts the listed files whose names *start with* the label. An empty annotation saves nothing. The model proves that a session of saves into an empty folder never writes the same file name twice. When labels contain no path separator, the file system tells names apart by case, and only the collector changes the folder, no sample is therefore overwritten. This holds even though the prefix count also counts `div2_*` files toward `div`.
- **Training** (`dataset.dfy`, `split.dfy`, `plateau.dfy`).
  - Class derivation. A file's class is its name up to the first underscore. So every digit collapses into the single class `num`, and `x` (`mult_x_…`) merges with `*` (`mult_…`) as `mult`. The model proves both facts as lemmas.
  - Index maps. The distinct classes are sorted in Python's string order and numbered 0..K-1. This gives a label→index map and its inverse. The inverse is written to the label file with the keys as decimal strings.
  - Targets. The sample loop keeps every file and builds its class index. The targets are then one-hot encoded.
  - Split. The samples are split by a permutation into validation and training parts. Each image stays beside its target.
  - Learning rate. The rate starts at 0.001. A reduce-on-plateau callback (factor 0.5, patience 3, floor 1e-5, no cooldown) runs over exactly 50 epochs. The callback is modelled as a class whose fields are updated once per epoch.
- **Prediction** (`inference.dfy`).
  - The prediction is the first maximum of the output vector (numpy's `argmax`).
  - Its index is rendered with `str` and looked up in the loaded label file.
  - The predictor also builds the label→key inverse of that file.

  End-to-end lemmas tie the three scripts together:
  - For a non-empty sample folder, with the label file from the same run and an output of length K, a prediction always succeeds. It names the class at the first maximum. For an empty folder K is 0, and neither the output nor the label file has an entry.
  - Decoding the one-hot target of a stored file returns that file's class.

Helper modules:
- `decimal.dfy`: `str(int)`, its parse-back and ASCII `isdigit`.
- `ordering.dfy`: Python's lexicographic `str` order, which Dafny's `<` on sequences is not.
- `maps.dfy`: dictionary inversion.
- `wrappers.dfy`: `Option`.

These are inputs of the model, not computed by it:
- the directory listing, as a sequence of names;
- the network's output vector;
- the permutation and validation size of the shuffle split;
- the validation loss of each epoch;
- the callback's improvement threshold.

The model follows what the code does, including the checks it does not make:
- The code has no check of its own for an empty sample folder. It writes an empty label file and then fails at one-hot encoding, because with zero classes Keras derives the class count from the largest target and there is none (`Dataset.TargetsEncode`). Nor does the code refuse a folder with a single class.
- The code does not check that the model's output size matches the label file.
- The code accepts any text as a label, not only ASCII letters, digits and underscore.
- The code has no "fail loudly" branch for names that do not follow the `<label>_<n>` pattern: such a file forms its own class, for example `plus.png`.

## Model

| member | source | states |
|---|---|---|
| `Collector.TableShape` | recolector.py:7-15 | every symbol-table key is a single non-digit character and every value is at least three characters long and starts with a non-digit |
| `Collector.NormalizeTable` | recolector.py:7-21 | each of the seven table keys (`*`, `/`, `+`, `-`, `=`, `÷`, `x`) normalises to its table value |
| `Collector.NormalizeDigits` | recolector.py:18-19 | a non-empty ASCII digit string `s` normalises to `"num_" + s`, and the label's tail after the tag is `s` again |
| `Collector.NormalizeExamples` | recolector.py:18-21 | `"7"`→`"num_7"`, `"42"`→`"num_42"`; `"plus"`, `"X"`, `" x"` and `""` come back unchanged (no trimming, no case folding) |
| `Collector.NormalizeFixedPoint` | recolector.py:18-21 | a string is its own label if and only if it is neither all digits nor a table key |
| `Collector.NormalizeNeverDigits` | recolector.py:6-21 | no canonical label is an all-digit string |
| `Collector.NormalizeIdempotent` | recolector.py:6-21 | normalising a canonical label changes nothing |
| `Collector.SaveNameNumbering` | recolector.py:54-61 | no file is named exactly when the typed text is empty; otherwise the name is `label + "_" + str(count) + ".png"` with `count` the listed names starting with `label`, the name itself starts with `label`, and once listed it raises that count by exactly one |
| `Collector.CountWithPrefixNone` | recolector.py:60 | the count of names with a prefix is 0 exactly when no listed name has that prefix |
| `Collector.CountWithPrefixAll` | recolector.py:60 | the count equals the length of the listing exactly when every listed name has the prefix |
| `Collector.FileNameInjective` | recolector.py:61 | two file names are equal only when label and number are both equal |
| `Collector.Session` | recolector.py:53-62 | a session of saves into an empty folder lists at most one new file per save, and exactly one per save when no typed text is empty (for labels without a path separator, see "## Left out") |
| `Collector.SessionNeverOverwrites` | recolector.py:53-62 | the folder built by any sequence of saves starting empty never holds one name twice, so no save overwrites an earlier sample on names compared exactly, for labels without a path separator, in a folder only the collector changes |
| `Decimal.Show` | entrenar_modelo.py:22-23 | the decimal rendering of an index (a JSON key) is a non-empty digit string with no leading zero except for 0 itself |
| `Decimal.ValueShow` | main.py:29 | reading the rendering of `n` as a decimal number gives `n` back |
| `Decimal.ShowInjective` | main.py:29 | distinct indices have distinct decimal strings |
| `Ordering.LessTransitive` | entrenar_modelo.py:16 | Python's string order is transitive |
| `Ordering.LessTotal` | entrenar_modelo.py:16 | any two distinct strings are ordered one way or the other |
| `Ordering.AscendingUnique` | entrenar_modelo.py:16 | two strictly ascending lists with the same elements are equal, so `sorted(set(...))` has one answer |
| `Maps.Invert` | entrenar_modelo.py:18 | inverting a map with distinct values gives a map whose keys are the values, each key sent back to the value's key, and nothing else |
| `Maps.InvertInvert` | main.py:15 | the inverse is again injective and inverting twice restores the map |
| `Dataset.ClassOf` | entrenar_modelo.py:30 | the class is a prefix of the name that contains no underscore and is followed by an underscore unless it is the whole name |
| `Dataset.ClassOfUnique` | entrenar_modelo.py:16 | those three facts single out the class, so it is exactly `split('_')[0]` |
| `Dataset.ClassOfSavedSample` | entrenar_modelo.py:16 | a stored sample's class is the class of its canonical label, and is the label itself when the label has no underscore |
| `Dataset.DigitsShareOneClass` | entrenar_modelo.py:16 | every all-digit annotation is stored in the one class `num` |
| `Dataset.TimesAndXShareOneClass` | entrenar_modelo.py:16 | samples typed as `x` and as `*` both land in class `mult` |
| `Dataset.InsertSorted` | entrenar_modelo.py:16 | inserting into a strictly ascending list keeps it strictly ascending, with exactly the old elements plus the new one |
| `Dataset.SortedClasses` | entrenar_modelo.py:16 | the class list is strictly ascending and holds exactly the classes of the listed files |
| `Dataset.SortedClassesIsSorted` | entrenar_modelo.py:16 | any strictly ascending list of exactly those classes equals the computed list |
| `Dataset.LabelToIndex` | entrenar_modelo.py:17 | the index map's keys are exactly the classes, the i-th class has index i, and every index is below K and names its class |
| `Dataset.IndexMapsBijection` | entrenar_modelo.py:17-18 | the index map has K entries, its inverse has exactly the keys 0..K-1 with index i naming the i-th class, and each map undoes the other |
| `Dataset.ClassIndexSize` | entrenar_modelo.py:17 | a folder's index map has one entry per distinct class |
| `Dataset.IndexToLabelKeys` | entrenar_modelo.py:18 | the index-to-class map has exactly the keys 0..K-1, and index i names the i-th class |
| `Dataset.ExampleClasses` | entrenar_modelo.py:16 | files `plus_0`, `plus_1`, `minus_0` give the class list `["minus", "plus"]` |
| `Dataset.TwoClassIndex` | entrenar_modelo.py:17 | a folder with exactly two classes numbers the smaller one 0 and the larger one 1, and has no other index |
| `Dataset.IndexExample` | entrenar_modelo.py:16-17 | files `plus_0`, `plus_1`, `minus_0` give the index map `{"minus": 0, "plus": 1}` |
| `Dataset.JsonKeys` | entrenar_modelo.py:22-23 | the label file has one key `str(i)` per index `i`, holding that index's class |
| `Dataset.JsonKeysDecimal` | entrenar_modelo.py:22-23 | each key of the label file is a decimal string whose value is an index of the map, that index renders back to the key, and the key holds the index's class |
| `Dataset.Kept` | entrenar_modelo.py:29-31 | every file the sample loop keeps has a class with an index |
| `Dataset.LoadSamples` | entrenar_modelo.py:26-37 | the loop's images are the kept files in listing order, with one target per image: the index of that image's class, so the loop's targets are exactly the `Targets` of its images that the encoding lemmas take |
| `Dataset.KeptAll` | entrenar_modelo.py:29-31 | when every listed file's class has an index, the loop keeps every file |
| `Dataset.SamplesAligned` | entrenar_modelo.py:16-37 | with the index map built from the same listing, the loop keeps every file, and each target is below K and names that file's class |
| `Dataset.ToCategorical` | entrenar_modelo.py:40 | with K = 0 the class count is one more than the largest target, and encoding fails exactly when there are no targets; with K > 0 it succeeds exactly when every target is below K; each row is then the one-hot row of its target over that class count |
| `Dataset.OneHotShape` | entrenar_modelo.py:40 | the one-hot row for class c has length K, a 1 at c, 0 elsewhere, and sums to 1 |
| `Dataset.TargetsEncode` | entrenar_modelo.py:40 | the targets of a listing encode exactly when the listing is not empty: an empty folder has K = 0 and no targets, and the encoding fails; otherwise there is one row per file, the one-hot row of its class index among the K classes |
| `Split.TrainTestSplit` | entrenar_modelo.py:43 | validation gets images and targets at positions perm[0..nTest), training those at perm[nTest..), paired position by position |
| `Split.GatherPermutation` | entrenar_modelo.py:43 | reordering along a permutation loses and repeats nothing |
| `Split.SplitIsPartition` | entrenar_modelo.py:43 | validation and training pairs together are, as a multiset, exactly the input's (image, target) pairs |
| `Plateau.StepEffect` | entrenar_modelo.py:85 | an improving epoch records its loss and clears the wait; the rate changes exactly when a third straight non-improving epoch ends above the floor, then to `max(lr*0.5, 1e-5)`, strictly lower, clearing the wait; otherwise the wait grows by one; a non-improving epoch leaves the best loss unchanged; the rate stays in [1e-5, 0.001] |
| `Plateau.BestSoFar` | entrenar_modelo.py:85 | with a non-negative threshold, the recorded best loss is absent exactly before the first epoch, is otherwise one of the losses seen, and no loss seen lies below it by more than the threshold; with threshold 0 it is the minimum so far |
| `Plateau.RunValid` | entrenar_modelo.py:81-85 | for every sequence of validation losses the rate stays within [1e-5, 0.001], never rises, and above the floor the wait stays below 3 |
| `Plateau.WaitCountsStagnation` | entrenar_modelo.py:85 | the wait counter counts recent epochs, every one of them non-improving |
| `Plateau.ReductionAfterPatience` | entrenar_modelo.py:85 | a reduction at an epoch end needs that epoch and the two before it to be non-improving |
| `Plateau.FlatLossExample` | entrenar_modelo.py:85 | with a loss flat after the first epoch, the rate is still 0.001 after three epochs and is 0.0005 after the fourth, with the wait cleared |
| `Plateau.ReduceLrOnPlateau.constructor` | entrenar_modelo.py:81-85 | the callback starts at rate 0.001, best loss +infinity and wait 0 |
| `Plateau.ReduceLrOnPlateau.OnEpochEnd` | entrenar_modelo.py:85 | the callback's fields after an epoch end are the schedule step of their old values |
| `Plateau.Fit` | entrenar_modelo.py:88 | exactly 50 epochs run: the rate used in epoch e is the schedule after the first e losses, it starts at 0.001, stays in [1e-5, 0.001] and never rises; the final callback state is the schedule after all 50 |
| `Inference.ArgMax` | main.py:28 | the result is absent exactly for an empty vector; otherwise it is an index in range, its entry is at least every entry, and every entry before it is smaller (first maximum) |
| `Inference.ArgMaxUnique` | main.py:28 | any index with the first-maximum properties is the one returned |
| `Inference.LabelFileKeys` | entrenar_modelo.py:22-23 | the label file holds the i-th class under `str(i)` for each i below K, and every key is the decimal string of an index below K |
| `Inference.LabelFileShape` | main.py:13-14 | the loaded label file also never stores one class under two keys, so the predictor's inversion is well defined |
| `Inference.LabelToKeyRoundTrip` | main.py:15 | the predictor's label→key map sends each class to the decimal string of its training index, and looking that key up gives the class back |
| `Inference.LabelFileLookup` | main.py:29 | index i has a key in the run's label file exactly when i is below K, and that key holds the i-th class |
| `Inference.PredictAfterTraining` | main.py:28-29 | with the run's own label file, a prediction succeeds exactly when the vector is non-empty and its first maximum is below K; it then names the class at that index, one of the listed classes |
| `Inference.PredictFullOutput` | main.py:25-29 | with an output vector of length K, a prediction succeeds exactly when the sample folder is not empty, and then names the class at the first maximum |
| `Inference.OneHotArgMax` | main.py:28 | the first maximum of a one-hot row is its class |
| `Inference.TargetDecodes` | main.py:29 | decoding the one-hot training target of the i-th listed file gives exactly that file's class |

## Left out

- Tk user interface (both `SymbolCollectorApp` classes: canvas, drawing, buttons, text boxes, clearing, the prediction on every mouse movement): it is user-interface code.
- Image work: PIL decoding, grayscale conversion, the resize to 28×28, the `/255.0` scaling and the saving of the drawing. The images that the sample loop loads are represented by their file names. A listed file that PIL cannot open, such as a stray non-image or a sub-folder, aborts the training script. The model treats every listed file as a readable image, so `Dataset.LoadSamples` and `Dataset.SamplesAligned` keep it.
- `ImageDataGenerator` augmentation: random floating-point geometric transforms.
- The network itself. This covers its layers, Adam's gradient steps, the cross-entropy loss, `model.fit`'s batches, `model.predict`, `model.save` and `load_model`. The model covers only the schedule's control logic, with the per-epoch validation losses and the output vector as inputs.
- File-system and JSON I/O (`os.listdir`, `os.makedirs`, `open`, `json.dump`/`json.load`):
  - A listing is a sequence of names, in the order `os.listdir` returns them.
  - The training script lists the folder twice. The model uses one listing, which assumes the folder does not change in between.
  - The label file is the map from decimal strings to class names that `json.dump` writes and `json.load` reads back.
- Python's `str.isdigit` also accepts non-ASCII digits such as `²` or `٣`. The model accepts ASCII `0`-`9` only.
- Path joining. The collector joins the folder `dataset_simbolos` and the file name into a path, but it counts only the names listed directly in that folder. A typed `/` alone becomes `div`. Any other label containing a path separator (`/`, and on Windows also `\`) leaves the folder:
  - `1/2` needs a sub-folder `1`. Without one, PIL's save raises `FileNotFoundError` and nothing is written.
  - `../a` writes into the parent folder. An absolute label such as `/tmp/a` makes the joined path ignore the folder altogether.

  The model treats names as plain strings listed in the one folder.
- `Maps.Invert`: requires a map with distinct values. When values repeat, Python keeps the key enumerated last. Every map this system inverts is built by training with distinct values (`Inference.LabelFileShape`). A hand-edited label file is outside the model.
- `Split.TrainTestSplit`: the shuffle permutation and the validation size are parameters. The model does not reproduce scikit-learn's seeded permutation for `random_state=42`, its rounding of the 20 % size, or its errors when there are no samples or the training part would be empty.
- The plateau callback's defaults are not visible in the repository:
  - its improvement threshold is the parameter `minDelta`;
  - it has no cooldown;
  - it uses the `min` mode for a loss.
- Learning rates, losses and network outputs are exact reals. float32 rounding is not modelled, and neither is NaN, for which numpy's `argmax` returns the first NaN.
- `Plateau.BestSoFar`: stated for a non-negative improvement threshold only. The callback applies the threshold without taking its absolute value, so a negative threshold lets a worse loss count as an improvement and the recorded best can rise.
- `Collector.Session`: holds only for labels whose normalised text has no path separator (`/`, and on Windows also `\`). When the label has a separator, the save either fails, writing nothing, or writes a file outside the listed folder, so the listing does not grow by that file.
- `Collector.SessionNeverOverwrites`: holds only for labels whose normalised text has no path separator. Saving `../a` twice writes `a_0.png` outside the folder both times, since the count of listed names stays 0, and the second save overwrites the first. The lemma also compares file names exactly, character by character, and assumes the folder changes only through the collector's own saves. On a file system that ignores case (NTFS, or APFS by default), labels `A` and `a` both save to `A_0.png`/`a_0.png`, which are the same file. After a user deletes an earlier sample, the count drops and the next save can land on a name that still exists: with only `a_1.png` left, `a` saves to `a_1.png` again.
- `Inference.Predict` models a missing key or an empty vector as no result. In the code these are a `KeyError` and a numpy `ValueError`. Nothing in the code handles them: the prediction runs inside the Tk mouse-motion callback, so Tk prints the traceback, the window keeps running, and the next mouse movement tries again.
- `Dataset.ToCategorical`: both failures are modelled as no result. Keras raises a `ValueError` on no targets with K = 0, and an index error for a target at or above K > 0.
