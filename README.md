# color-extractor, modelled in Dafny

color-extractor is a small Flask application. A user uploads a PNG or JPEG image and asks for a number of colours. The server clusters the image's pixels with k-means and lists each cluster centre as a `#RRGGBB` hex code together with the percentage of pixels in that cluster. This project models the logic of `main.py` around the web layer and the clustering library:

- `hex_color.dfy` (module `HexColor`) covers `rgb_to_hex`. Channels are integers in [0, 255], on which Python's `round` changes nothing. The `{:02X}` format is written out for every natural number: base-16 digits, upper-case, padded with a leading `0` to at least two characters. A decoder `HexToRgb` is its partner: the two are proved inverse, and `rgb_to_hex` is proved injective.
- `upload.dfy` (module `Upload`) covers `allowed_file` and `ALLOWED_EXTENSIONS`. Python's `str.rfind` is modelled with its `-1` result. The slice `s[i:]` follows Python for a negative start: `s[-1:]` is the last character. `str.lower` applies to ASCII letters.
- `extractor.dfy` (module `ColorExtractor`) covers `extract_colors`. It models:
  - the row-major flatten of the image;
  - the set of distinct colours;
  - the clamp of the requested cluster count to the number of distinct colours;
  - the loop that builds the dictionary (a `method` with a loop invariant over a `map`).

  What KMeans returns (one label per pixel and the rounded centres) is taken as the parameters `labels` and `centroids`. KMeans raises an error when asked for fewer than one cluster. That happens when the request is below one or the image is empty, and the model returns `Err(InvalidClusterCount)` in that case. Each dictionary value is the exact percentage `100 * count / len(labels)` as a real number.

## Model

| member | source | states |
|---|---|---|
| HexColor.RgbToHex | main.py:14-16 | rgb_to_hex: `#` followed by `{:02X}` of red, green and blue; its properties are RgbToHexDigits, DecodeEncode, EncodeDecode and RgbToHexInjective |
| HexColor.RgbToHexDigits | main.py:14-16 | rgb_to_hex writes 7 characters: `#`, then the high and low upper-case hex digit of red, green and blue, in that order |
| HexColor.DecodeEncode | main.py:16 | decoding the string rgb_to_hex writes gives back the original channels |
| HexColor.EncodeDecode | main.py:16 | the decoder accepts exactly the `#RRGGBB` strings, and rgb_to_hex of what it decodes is the same string |
| HexColor.RgbToHexInjective | main.py:16 | two colours get the same hex code if and only if they are equal |
| HexColor.ToHex | main.py:16 | the `X` format writes at least one digit, every one an upper-case hex digit; ParseToHex gives their value |
| HexColor.Format02X | main.py:16 | `{:02X}` writes at least two upper-case hex digits; Format02XValue, Format02XWidth and Format02XByte give its value and width |
| HexColor.ParseToHex | main.py:16 | the digits the `X` format writes denote the number in base 16 |
| HexColor.Format02XValue | main.py:16 | `{:02X}` pads with a leading zero that does not change the value |
| HexColor.Format02XWidth | main.py:16 | `{:02X}` is exactly two characters wide if and only if the value is below 256 |
| HexColor.Format02XByte | main.py:16 | for a value below 256, `{:02X}` is its high hex digit followed by its low hex digit |
| HexColor.HexDigit | main.py:16 | the digit written for a value below 16 is an upper-case hex digit, and a decimal digit exactly for values below 10 |
| HexColor.DigitValue | main.py:16 | the value of an upper-case hex digit is below 16 and is written back as the same digit |
| Upload.AllowedExtensions | main.py:11 | the three accepted extensions `.png`, `.jpg` and `.jpeg` |
| Upload.AllowedExtensionsForm | main.py:11 | every accepted extension is a `.` followed by at least three characters, none of them a `.` |
| Upload.AllowedFile | main.py:44-46 | allowed_file: the name from its last `.` on, lower-cased, is an accepted extension; AllowedFileIff characterises it |
| Upload.RFind | main.py:45 | `rfind` gives -1 or an index holding the character, with no occurrence after it |
| Upload.SuffixFrom | main.py:45 | Python's slice `s[i:]` is the suffix starting at i; a negative i counts from the end, so `s[-1:]` is the last character; a start past the end gives the empty string and one before the start gives all of s |
| Upload.LowerChar | main.py:45 | lower-casing one character leaves no capital; a capital becomes its own small letter and any other character is kept |
| Upload.Lower | main.py:45 | `lower` keeps the length, leaves no capital, turns each capital into its own small letter and keeps every other character |
| Upload.LowerIdempotent | main.py:45 | lower-casing twice is the same as lower-casing once |
| Upload.AllowedFileIff | main.py:44-46 | a name is allowed if and only if it ends, ignoring case, with `.png`, `.jpg` or `.jpeg`, the extensions of main.py:11 |
| Upload.AllowedSuffixAccepted | main.py:44-46 | a name that ends with an allowed extension, in any case, is accepted |
| Upload.RFindIsLast | main.py:45 | a `.` with no `.` after it is the one rfind finds |
| Upload.NoDotRefused | main.py:45-46 | a name without a `.` is refused, because the slice keeps at most one character |
| Upload.AllowedFileCaseInsensitive | main.py:45-46 | lower-casing the name first does not change the result |
| Upload.AcceptsUpperCase | main.py:44-46 | `a.PNG` is accepted |
| Upload.RefusesInnerExtension | main.py:44-46 | `a.png.txt` is refused: only the part after the last `.` counts |
| Upload.RefusedWithoutDot | main.py:45-46 | `png` and the empty name are refused |
| ColorExtractor.Flatten | main.py:20-21 | the rows of the image one after the other; FlattenLength and FlattenAt give its length and layout |
| ColorExtractor.FlattenLength | main.py:20-21 | an image of H rows of W pixels flattens into H * W pixels |
| ColorExtractor.FlattenAt | main.py:20-21 | the flatten is row-major: pixel (y, x) lands at index y * W + x |
| ColorExtractor.UniqueColors | main.py:23-24 | the distinct colours among the pixels; UniqueCountBounds and UniqueCountOne bound their number |
| ColorExtractor.UniqueCountBounds | main.py:23-24 | the number of distinct colours is at most the number of pixels, and at least 1 when there is a pixel |
| ColorExtractor.UniqueCountOne | main.py:23-24 | a non-empty image has one distinct colour if and only if all its pixels are equal |
| ColorExtractor.EffectiveOneCluster | main.py:23-27 | with pixels and a request of at least 1, the clamped count is 1 if and only if 1 was requested or the image has a single colour |
| ColorExtractor.Count | main.py:37 | `labels.count(i)` is the multiplicity of i among the labels |
| ColorExtractor.SumCountsCons | main.py:37 | adding a label below n raises the total of the first n counts by one; any other label leaves it unchanged |
| ColorExtractor.CountsCoverLabels | main.py:36-37 | when every label lies in [0, k), the counts of clusters 0 .. k-1 add up to the number of labels |
| ColorExtractor.Share | main.py:38 | `100 * j / len(labels)` as an exact real; ShareMeaning, ShareOfAll, ShareOfNone and ShareAdd give its properties |
| ColorExtractor.ShareMeaning | main.py:38 | the percentage times the number of labels is 100 times the count, and a count of at most the total gives a value in [0, 100] |
| ColorExtractor.ShareOfAll | main.py:38 | all the pixels make 100 percent |
| ColorExtractor.ShareOfNone | main.py:38 | no pixels make 0 percent |
| ColorExtractor.ShareAdd | main.py:38 | percentages of the same total add like the counts they come from |
| ColorExtractor.Hexes | main.py:36-39 | there is one key for each centre |
| ColorExtractor.HexesAt | main.py:39 | the key written for cluster i is rgb_to_hex of centre i |
| ColorExtractor.Aggregated | main.py:35-39 | the dictionary after clusters 0 .. n-1: each writes its percentage under its key, a later write replacing an earlier one; AggregatedKeys, AggregatedLastWins and AggregatedDistinct give its keys and values |
| ColorExtractor.AggregatedKeys | main.py:35-39 | the dictionary's keys are exactly the keys written by the clusters handled so far, so there are at most that many |
| ColorExtractor.AggregatedLastWins | main.py:36-39 | a key holds the percentage of the highest-numbered cluster that writes it |
| ColorExtractor.AggregatedDistinct | main.py:36-39 | with distinct keys nothing is overwritten: one entry per cluster, each holding that cluster's percentage |
| ColorExtractor.TotalOfShares | main.py:36-38 | summing the percentages of clusters 0 .. n-1 gives the percentage of all their pixels together |
| ColorExtractor.PercentagesSumTo100 | main.py:36-38 | when labels lie in [0, k) and the keys are distinct, the dictionary has k entries whose exact percentages add up to 100 |
| ColorExtractor.OneClusterTakesAll | main.py:35-39 | with a single cluster the dictionary is that one key at 100 percent |
| ColorExtractor.IsClustering | main.py:29-33 | what KMeans hands back for k clusters over n pixels: one label below k per pixel and k centres |
| ColorExtractor.DictionaryKeys | main.py:35-39 | after the loop the dictionary has at most one key per centre; each key is rgb_to_hex of some centre and is a well-formed `#RRGGBB` |
| ColorExtractor.DictionaryLastWins | main.py:36-39 | the key of a centre holds the percentage of the last cluster whose centre has that colour |
| ColorExtractor.Aggregate | main.py:35-39 | the loop builds the dictionary Aggregated describes: clusters handled in index order, cluster i's percentage under the hex code of centre i |
| ColorExtractor.ExtractColors | main.py:19-41 | the cluster count is min(requested, distinct colours) and unchanged when the request is not above that; the error case is exactly a count below 1; a non-empty image with a request of at least 1 succeeds; on success the result is the dictionary of the loop, with at most k keys, each the `#RRGGBB` code of a centre |
| ColorExtractor.TwoColorClamp | main.py:23-27 | the 2x2 red/red/green/green image has two colours, so any request of 2 or more is clamped to 2 |
| ColorExtractor.TwoColorDictionary | main.py:35-39 | with labels 0, 0, 1, 1 and centres red and green, the result is `#FF0000` and `#00FF00` at 50 percent each |

## Left out

- The Flask application, its routes and configuration (main.py:55-84): web plumbing and file serving.
- `UploadForm` (main.py:49-52): validator configuration whose behaviour lives in the wtforms and flask_wtf libraries. Its 1..20 bound on the request is therefore not assumed: the model accepts any integer.
- Writing the temporary file and `Image.open`: filesystem I/O and image decoding. The image arrives as rows of pixels.
- The KMeans fit (main.py:29-33): a foreign library call with random initialisation and floating-point centres. Its labels and rounded centres are parameters, constrained by `IsClustering`. The error it raises for fewer than one cluster is modelled as `Err(InvalidClusterCount)`.
- Python's half-to-even `round` of floating-point centres (main.py:15): centres arrive as whole numbers in [0, 255].
- `round(..., 4)` and the `f"{j} %"` formatting (main.py:38-39): dictionary values are the exact percentages as reals. The proved sum of exactly 100 therefore applies to the unrounded values.
- Unicode `str.lower`: only ASCII letters are lower-cased.
- Images that do not have 3 channels (RGBA, palette): how `np.reshape(array, (-1, 3))` treats them depends on numpy and PIL.
- ColorExtractor.ExtractColors also returns the clamped cluster count, which the source only passes to KMeans. This makes the clamp visible in the contract.
- ColorExtractor.Aggregate: the insertion order of the returned dictionary is not modelled. A Python dict lists its keys in first-insertion order, and an overwritten key keeps its first position. The model's `map` holds only the keys and their values.
