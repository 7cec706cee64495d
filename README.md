# RedditClusteringP2P.v2 dataset transform in Dafny

This project models `RedditFastClusteringP2P.dataset_transform`, the data
preparation step of the `RedditClusteringP2P.v2` clustering task of the
text-embedding benchmark. For every evaluation split the task's dataset holds
two grouped columns, `labels` and `sentences` (one group per clustering set).
The transform

1. flattens both columns by concatenating their groups in order, so that flat
   position k pairs a label with its own sentence;
2. counts how often each label value occurs in the flat split;
3. for each label that occurs exactly once, looks up its position with
   `list.index` and pops that position from both lists together;
4. stores the cleaned pair under the split name and replaces the task's
   dataset with the map of cleaned splits.

Everything is in `reddit_clustering_p2p.dfy`, module `RedditClusteringP2P`:

- `RawSplit`, `FlatSplit` and `SplitData` are the grouped split, the flat
  split and what the dataset holds for a split name before and after the
  transform. The label type `L` is generic (any type with equality).
- `Flatten` models `itertools.chain.from_iterable`; `IndexOf` and `RemoveAt`
  model `list.index` and `list.pop`; `SoloLabels` models `np.unique` with
  counts followed by the `counts == 1` selection.
- `Without(f, drop)` is the specification of the removal: a single filtering
  pass that keeps the pairs whose label is not in `drop`. `Clean(f)` is
  `Without(f, SoloLabels(f.labels))`, and `CleanSplit` applies it to the
  flattened raw split.
- `TransformSplit` is the pop loop itself, proved equal to `CleanSplit`. The
  loop visits the singleton labels in an arbitrary order (the code visits them
  in the sorted order `np.unique` returns), so the equivalence holds for every
  visiting order. Its invariant is that the lists equal `Without(flat, done)`
  for the set `done` of singletons popped so far. `PopStep` is the step: the
  next singleton is still in the list (so `list.index` never fails) and
  popping it is dropping it.
- The class `RedditFastClusteringP2P` holds the evaluation splits from the
  task metadata (`["test"]`) and the mutable `dataset` map;
  `DatasetTransform` loops over the evaluation splits and reassigns
  `dataset`.

The code does not check that the two columns have the same shape: it
flattens whatever it is given, and `sentences.pop(loc)` could then remove the
wrong sentence or fail. The model makes equal shapes a precondition
(`RawSplit.WellShaped`).

## Model

| member | source | states |
|---|---|---|
| `RedditClusteringP2P.Flatten` | mteb/tasks/Clustering/eng/RedditClusteringP2P.py:98-101 | every entry of every group appears in the flattened list; its order and positions are given by `FlattenAppend`, `FlattenAt` and `FlattenCovers` |
| `RedditClusteringP2P.FlattenAppend` | mteb/tasks/Clustering/eng/RedditClusteringP2P.py:98-101 | flattening distributes over concatenation of the group list, so groups appear in the flat list in their original order |
| `RedditClusteringP2P.FlattenAt` | mteb/tasks/Clustering/eng/RedditClusteringP2P.py:98-101 | entry j of group i is at flat position `Offset(groups, i) + j`, which is in range |
| `RedditClusteringP2P.FlattenCovers` | mteb/tasks/Clustering/eng/RedditClusteringP2P.py:98-101 | every flat position is `Offset(groups, i) + j` for some entry j of some group i and holds that entry |
| `RedditClusteringP2P.FlattenSameLength` | mteb/tasks/Clustering/eng/RedditClusteringP2P.py:98-101 | two group lists of the same shape flatten to lists of the same length |
| `RedditClusteringP2P.Flat` | mteb/tasks/Clustering/eng/RedditClusteringP2P.py:98-101 | a well-shaped split flattens to two lists of equal length |
| `RedditClusteringP2P.FlatPairsEntries` | mteb/tasks/Clustering/eng/RedditClusteringP2P.py:98-101 | group i starts at the same flat position in both columns, and entry j of group i of both columns lands at the same flat position |
| `RedditClusteringP2P.FlatPositionPairs` | mteb/tasks/Clustering/eng/RedditClusteringP2P.py:98-101 | every flat position holds the label and the sentence of one and the same grouped entry (no cross-pairing) |
| `RedditClusteringP2P.IndexOf` | mteb/tasks/Clustering/eng/RedditClusteringP2P.py:110 | `list.index`: the returned position holds the value and no earlier position does |
| `RedditClusteringP2P.RemoveAt` | mteb/tasks/Clustering/eng/RedditClusteringP2P.py:111-112 | `list.pop`: one element shorter, earlier elements unchanged, later ones shifted down by one, the multiset loses exactly the popped element |
| `RedditClusteringP2P.SoloLabels` | mteb/tasks/Clustering/eng/RedditClusteringP2P.py:106-108 | a label of the split is selected exactly when it occurs once, and every selected label occurs once |
| `RedditClusteringP2P.Without` | mteb/tasks/Clustering/eng/RedditClusteringP2P.py:109-112 | the filtered labels and sentences have equal length, no longer than the input |
| `RedditClusteringP2P.WithoutKeepsOthers` | mteb/tasks/Clustering/eng/RedditClusteringP2P.py:109-112 | every label left after filtering comes from the input and is not one of the dropped labels |
| `RedditClusteringP2P.WithoutCount` | mteb/tasks/Clustering/eng/RedditClusteringP2P.py:109-112 | a dropped label has no occurrence left; every other label keeps exactly its number of occurrences |
| `RedditClusteringP2P.WithoutAbsent` | mteb/tasks/Clustering/eng/RedditClusteringP2P.py:109-112 | dropping labels that do not occur leaves the split unchanged |
| `RedditClusteringP2P.WithoutTwice` | mteb/tasks/Clustering/eng/RedditClusteringP2P.py:109-112 | dropping one label set after another equals dropping their union, so the order of removals does not matter |
| `RedditClusteringP2P.PopSingleton` | mteb/tasks/Clustering/eng/RedditClusteringP2P.py:110-112 | for a label occurring once, it is present, and popping its `list.index` position from both lists equals dropping that label |
| `RedditClusteringP2P.WithoutSelects` | mteb/tasks/Clustering/eng/RedditClusteringP2P.py:109-112 | the filtered split is the pairs at an increasing list of flat positions, each pair kept with its own sentence, and a position is listed exactly when its label is not dropped |
| `RedditClusteringP2P.Clean` | mteb/tasks/Clustering/eng/RedditClusteringP2P.py:106-112 | the cleaned lists are aligned, no longer than the flat split, and every label kept occurs at least twice in the flat split; `CleanSelectsRepeated`, `CleanRemovesOnlySingletons`, `CleanLength` and `CleanIdempotent` characterise it fully |
| `RedditClusteringP2P.CleanSplit` | mteb/tasks/Clustering/eng/RedditClusteringP2P.py:98-113 | what is stored for one split: aligned lists, no longer than the flattened labels, each kept label occurring at least twice in them; `TransformSplit` is proved equal to it |
| `RedditClusteringP2P.CleanSelectsRepeated` | mteb/tasks/Clustering/eng/RedditClusteringP2P.py:106-112 | the cleaned split is, in original order, exactly the flat pairs whose label occurs at least twice, each with its own sentence |
| `RedditClusteringP2P.CleanRemovesOnlySingletons` | mteb/tasks/Clustering/eng/RedditClusteringP2P.py:106-112 | no singleton label survives; every other label keeps all its occurrences; every label of the output occurs at least twice in it |
| `RedditClusteringP2P.CleanIdempotent` | mteb/tasks/Clustering/eng/RedditClusteringP2P.py:106-112 | cleaning an already cleaned split returns it unchanged |
| `RedditClusteringP2P.WithoutSingletonsLength` | mteb/tasks/Clustering/eng/RedditClusteringP2P.py:106-112 | dropping any set of singleton labels shortens the split by the size of that set |
| `RedditClusteringP2P.CleanLength` | mteb/tasks/Clustering/eng/RedditClusteringP2P.py:106-112 | both cleaned lists have length: flat length minus the number of distinct singleton labels |
| `RedditClusteringP2P.CleanAllSingletons` | mteb/tasks/Clustering/eng/RedditClusteringP2P.py:106-112 | if every label is a singleton, both cleaned lists are empty |
| `RedditClusteringP2P.ExampleOneSingleton` | mteb/tasks/Clustering/eng/RedditClusteringP2P.py:98-112 | labels `[["a","a","b"]]` with sentences `[["s1","s2","s3"]]` clean to `["a","a"]`, `["s1","s2"]` |
| `RedditClusteringP2P.ExampleAllSingletons` | mteb/tasks/Clustering/eng/RedditClusteringP2P.py:98-112 | labels `[["x"],["y"]]` clean to two empty lists |
| `RedditClusteringP2P.PopStep` | mteb/tasks/Clustering/eng/RedditClusteringP2P.py:109-112 | after some singletons are popped, the next singleton is still present and popping its position drops it too |
| `RedditClusteringP2P.TransformSplit` | mteb/tasks/Clustering/eng/RedditClusteringP2P.py:98-112 | the flatten-then-pop loop, in any order of the singleton labels, yields aligned lists equal to the single filtering pass `CleanSplit` |
| `RedditClusteringP2P.RedditFastClusteringP2P.constructor` | mteb/tasks/Clustering/eng/RedditClusteringP2P.py:68 | the task's evaluation splits are `["test"]` and its dataset is the loaded one |
| `RedditClusteringP2P.RedditFastClusteringP2P.DatasetTransform` | mteb/tasks/Clustering/eng/RedditClusteringP2P.py:95-115 | the new dataset has exactly the evaluation splits as keys, each mapped to the cleaned flat form of its own old raw split |

## Left out

- `check_label_distribution` (RedditClusteringP2P.py:103): a diagnostic from the base clustering module, which is not part of this model; it does not change the data and is omitted.
- `RedditClusteringP2P.TransformSplit`: visits the singleton labels in an arbitrary order rather than the sorted order `np.unique` produces; the result is proved the same for every order, which covers the sorted one.
- `RedditClusteringP2P.RedditFastClusteringP2P.DatasetTransform`: requires every evaluation split to be loaded, grouped and well shaped; the code would raise `KeyError` for a missing split and does not check shapes.
- `Dataset.from_dict` and `DatasetDict` are modelled as a `FlatSplit` value and a `map` from split name to split data; column types, features and dataset fingerprints are not modelled.
- numpy's conversion of label values to array scalars is not modelled; labels are a generic type compared by equality.
- The task metadata records of both tasks, the superseded `RedditClusteringP2P` task and `STS13STS.metadata_dict` are static configuration; only the evaluation split list is used.
- Loading and downloading the dataset and the clustering evaluation that consumes the cleaned splits are outside this model.
