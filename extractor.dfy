/**
 * `extract_colors`: flatten the image into its pixels, count the distinct
 * colours, clamp the requested number of clusters to that count, and turn
 * the clustering into a dictionary from the hex code of each cluster centre
 * to the share of pixels in that cluster. The k-means fit itself is not
 * modelled: its labels and rounded centres are parameters.
 */
module ColorExtractor {
  import opened HexColor

  /** What KMeans refuses: fewer than one cluster. */
  datatype Error = InvalidClusterCount

  datatype Result<T> = Ok(value: T) | Err(error: Error)

  function Min(a: int, b: int): int {
    if a < b then a else b
  }

  // ---------------------------------------------------------------------
  // Pixels

  /** Every row of the image holds `width` pixels, as in the array numpy builds from it. */
  predicate IsImage(rows: seq<seq<Rgb>>, width: nat) {
    forall row :: row in rows ==> |row| == width
  }

  /** `np.reshape(array, (-1, 3))`: the rows of the image, one after the other. */
  function Flatten(rows: seq<seq<Rgb>>): seq<Rgb> {
    if rows == [] then [] else rows[0] + Flatten(rows[1..])
  }

  /** A W x H image flattens into W * H pixels. */
  lemma {:induction false} FlattenLength(rows: seq<seq<Rgb>>, width: nat)
    requires IsImage(rows, width)
    ensures |Flatten(rows)| == |rows| * width
  {
    if rows != [] {
      assert rows[0] in rows;
      assert IsImage(rows[1..], width) by {
        forall row | row in rows[1..] ensures |row| == width {
          assert row in rows;
        }
      }
      FlattenLength(rows[1..], width);
      assert |Flatten(rows)| == width + |Flatten(rows[1..])|;
      assert width + (|rows| - 1) * width == |rows| * width;
    }
  }

  /** The flatten is row-major: the pixel at row y, column x lands at y * W + x. */
  lemma {:induction false} FlattenAt(rows: seq<seq<Rgb>>, width: nat, y: nat, x: nat)
    requires IsImage(rows, width) && y < |rows| && x < width
    ensures y * width + x < |Flatten(rows)| && Flatten(rows)[y * width + x] == rows[y][x]
  {
    FlattenLength(rows, width);
    assert rows[0] in rows;
    if y > 0 {
      assert IsImage(rows[1..], width) by {
        forall row | row in rows[1..] ensures |row| == width {
          assert row in rows;
        }
      }
      FlattenAt(rows[1..], width, y - 1, x);
      assert (y - 1) * width + x + width == y * width + x;
    }
  }

  /** `np.unique(array, axis=0)`: the distinct colours among the pixels. */
  function UniqueColors(pixels: seq<Rgb>): set<Rgb> {
    set p | p in pixels
  }

  /** There are no more distinct colours than pixels, and at least one when there is a pixel. */
  lemma {:induction false} UniqueCountBounds(pixels: seq<Rgb>)
    ensures |UniqueColors(pixels)| <= |pixels|
    ensures |pixels| > 0 ==> 1 <= |UniqueColors(pixels)|
  {
    if pixels == [] {
      assert UniqueColors(pixels) == {};
    } else {
      var rest := UniqueColors(pixels[1..]);
      assert UniqueColors(pixels) == rest + {pixels[0]};
      UniqueCountBounds(pixels[1..]);
      if pixels[0] !in rest {
        assert |rest + {pixels[0]}| == |rest| + 1;
      }
    }
  }

  /** A non-empty image has one distinct colour exactly when all its pixels are equal. */
  lemma UniqueCountOne(pixels: seq<Rgb>)
    requires |pixels| > 0
    ensures |UniqueColors(pixels)| == 1 <==> forall j :: 0 <= j < |pixels| ==> pixels[j] == pixels[0]
  {
    var u := UniqueColors(pixels);
    if forall j :: 0 <= j < |pixels| ==> pixels[j] == pixels[0] {
      assert u == {pixels[0]};
    }
    if |u| == 1 {
      assert pixels[0] in u;
      assert |u - {pixels[0]}| == 0;
      forall j | 0 <= j < |pixels| ensures pixels[j] == pixels[0] {
        assert pixels[j] in u;
      }
    }
  }

  /**
   * With at least one pixel and at least one requested cluster, the clamped
   * count is one exactly when one cluster was asked for or the image has a
   * single colour.
   */
  lemma EffectiveOneCluster(pixels: seq<Rgb>, numberOfClusters: int)
    requires |pixels| > 0 && numberOfClusters >= 1
    ensures Min(numberOfClusters, |UniqueColors(pixels)|) == 1 <==>
      numberOfClusters == 1 || forall j :: 0 <= j < |pixels| ==> pixels[j] == pixels[0]
  {
    UniqueCountBounds(pixels);
    UniqueCountOne(pixels);
  }

  // ---------------------------------------------------------------------
  // Counting labels

  /** `labels.count(i)`: how many pixels were assigned to cluster i. */
  function Count(labels: seq<nat>, i: nat): (c: nat)
    ensures c == multiset(labels)[i]
  {
    if labels == [] then 0
    else
      assert labels == [labels[0]] + labels[1..];
      (if labels[0] == i then 1 else 0) + Count(labels[1..], i)
  }

  /** Count(labels, 0) + ... + Count(labels, n - 1). */
  function SumCounts(labels: seq<nat>, n: nat): nat {
    if n == 0 then 0 else SumCounts(labels, n - 1) + Count(labels, n - 1)
  }

  lemma {:induction false} SumCountsCons(x: nat, rest: seq<nat>, n: nat)
    ensures SumCounts([x] + rest, n) == SumCounts(rest, n) + (if x < n then 1 else 0)
  {
    if n > 0 {
      SumCountsCons(x, rest, n - 1);
      assert multiset([x] + rest) == multiset([x]) + multiset(rest);
    }
  }

  /** When every label lies in [0, k), the clusters' counts add up to the number of pixels. */
  lemma {:induction false} CountsCoverLabels(labels: seq<nat>, k: nat)
    requires forall j :: 0 <= j < |labels| ==> labels[j] < k
    ensures SumCounts(labels, k) == |labels|
  {
    if labels == [] {
      SumCountsEmpty(k);
    } else {
      CountsCoverLabels(labels[1..], k);
      assert labels == [labels[0]] + labels[1..];
      SumCountsCons(labels[0], labels[1..], k);
    }
  }

  lemma {:induction false} SumCountsEmpty(n: nat)
    ensures SumCounts([], n) == 0
  {
    if n > 0 {
      SumCountsEmpty(n - 1);
    }
  }

  // ---------------------------------------------------------------------
  // The dictionary

  /** `100 * count / len(labels)`, exactly: the percentage of pixels in a cluster. */
  function Share(count: nat, total: nat): real
    requires total > 0
  {
    100.0 * (count as real) / (total as real)
  }

  /** A share is the percentage it stands for: times the total it is 100 times the count, and a part lies in [0, 100]. */
  lemma ShareMeaning(count: nat, total: nat)
    requires total > 0
    ensures (total as real) * Share(count, total) == 100.0 * (count as real)
    ensures count <= total ==> 0.0 <= Share(count, total) <= 100.0
  {
  }

  /** All the pixels are 100 percent of them. */
  lemma ShareOfAll(n: nat)
    requires n > 0
    ensures Share(n, n) == 100.0
  {
    var x := n as real;
    assert x / x == 1.0;
    assert 100.0 * x / x == 100.0 * (x / x);
  }

  /** No pixels are 0 percent. */
  lemma ShareOfNone(n: nat)
    requires n > 0
    ensures Share(0, n) == 0.0
  {
  }

  /** Shares of the same total add like the counts they come from. */
  lemma ShareAdd(a: nat, b: nat, total: nat)
    requires total > 0
    ensures Share(a, total) + Share(b, total) == Share(a + b, total)
  {
  }

  /** The hex codes of the centres, in cluster order: the keys the loop writes. */
  function Hexes(centroids: seq<Rgb>): (keys: seq<string>)
    ensures |keys| == |centroids|
  {
    if centroids == [] then [] else Hexes(centroids[..|centroids| - 1]) + [RgbToHex(centroids[|centroids| - 1])]
  }

  /** Key i is rgb_to_hex of centre i. */
  lemma {:induction false} HexesAt(centroids: seq<Rgb>, i: nat)
    requires i < |centroids|
    ensures Hexes(centroids)[i] == RgbToHex(centroids[i])
  {
    var n := |centroids| - 1;
    if i < n {
      HexesAt(centroids[..n], i);
    }
  }

  /**
   * The dictionary after the loop has handled clusters 0 .. n - 1: cluster i
   * writes its share under keys[i], a later write overwriting an earlier one.
   */
  function Aggregated(labels: seq<nat>, keys: seq<string>, n: nat): map<string, real>
    requires n <= |keys| && |labels| > 0
  {
    if n == 0 then map[]
    else Aggregated(labels, keys, n - 1)[keys[n - 1] := Share(Count(labels, n - 1), |labels|)]
  }

  /** No cluster after i, among the first n, writes the key that cluster i writes. */
  predicate IsLastWrite(keys: seq<string>, n: nat, i: nat)
    requires i < n <= |keys|
  {
    forall j :: i < j < n ==> keys[j] != keys[i]
  }

  /** No two clusters write the same key. */
  predicate Distinct(keys: seq<string>) {
    forall i, j :: 0 <= i < j < |keys| ==> keys[i] != keys[j]
  }

  /** The keys are those written by clusters 0 .. n - 1, so there are at most n of them. */
  lemma {:induction false} AggregatedKeys(labels: seq<nat>, keys: seq<string>, n: nat)
    requires n <= |keys| && |labels| > 0
    ensures forall key :: key in Aggregated(labels, keys, n) <==> exists i :: 0 <= i < n && keys[i] == key
    ensures |Aggregated(labels, keys, n)| <= n
  {
    if n > 0 {
      AggregatedKeys(labels, keys, n - 1);
      var prev := Aggregated(labels, keys, n - 1);
      assert Aggregated(labels, keys, n).Keys == prev.Keys + {keys[n - 1]};
      if keys[n - 1] !in prev.Keys {
        assert |prev.Keys + {keys[n - 1]}| == |prev.Keys| + 1;
      }
    }
  }

  /** A key holds the share of the highest-numbered cluster that writes it. */
  lemma {:induction false} AggregatedLastWins(labels: seq<nat>, keys: seq<string>, n: nat, i: nat)
    requires i < n <= |keys| && |labels| > 0
    requires IsLastWrite(keys, n, i)
    ensures keys[i] in Aggregated(labels, keys, n)
    ensures Aggregated(labels, keys, n)[keys[i]] == Share(Count(labels, i), |labels|)
  {
    if i < n - 1 {
      assert keys[n - 1] != keys[i];
      AggregatedLastWins(labels, keys, n - 1, i);
    }
  }

  /** With distinct keys nothing is overwritten: n entries, each holding its own cluster's share. */
  lemma {:induction false} AggregatedDistinct(labels: seq<nat>, keys: seq<string>, n: nat)
    requires n <= |keys| && |labels| > 0
    requires Distinct(keys)
    ensures |Aggregated(labels, keys, n)| == n
    ensures forall i :: 0 <= i < n ==>
      keys[i] in Aggregated(labels, keys, n) &&
      Aggregated(labels, keys, n)[keys[i]] == Share(Count(labels, i), |labels|)
  {
    if n > 0 {
      AggregatedDistinct(labels, keys, n - 1);
      AggregatedKeys(labels, keys, n - 1);
      assert keys[n - 1] !in Aggregated(labels, keys, n - 1);
      forall i | 0 <= i < n
        ensures keys[i] in Aggregated(labels, keys, n)
        ensures Aggregated(labels, keys, n)[keys[i]] == Share(Count(labels, i), |labels|)
      {
        AggregatedLastWins(labels, keys, n, i);
      }
    }
  }

  /** The sum of the values m holds under the given keys. */
  function Total(m: map<string, real>, keys: seq<string>): real
    requires forall j :: 0 <= j < |keys| ==> keys[j] in m
  {
    if keys == [] then 0.0 else Total(m, keys[..|keys| - 1]) + m[keys[|keys| - 1]]
  }

  /** Adding up the shares of clusters 0 .. n - 1 gives the share of all their pixels together. */
  lemma {:induction false} TotalOfShares(labels: seq<nat>, m: map<string, real>, keys: seq<string>, n: nat)
    requires n <= |keys| && |labels| > 0
    requires forall i :: 0 <= i < |keys| ==> keys[i] in m && m[keys[i]] == Share(Count(labels, i), |labels|)
    ensures Total(m, keys[..n]) == Share(SumCounts(labels, n), |labels|)
  {
    if n == 0 {
      ShareOfNone(|labels|);
    } else {
      var total, prefix := |labels|, keys[..n];
      TotalOfShares(labels, m, keys, n - 1);
      assert prefix[..n - 1] == keys[..n - 1];
      calc {
        Total(m, prefix);
        Total(m, keys[..n - 1]) + m[keys[n - 1]];
        Share(SumCounts(labels, n - 1), total) + Share(Count(labels, n - 1), total);
        { ShareAdd(SumCounts(labels, n - 1), Count(labels, n - 1), total); }
        Share(SumCounts(labels, n), total);
      }
    }
  }

  /**
   * When every label lies in [0, k) and the k clusters write distinct keys,
   * the dictionary has k entries and its exact percentages add up to 100.
   */
  lemma PercentagesSumTo100(labels: seq<nat>, keys: seq<string>)
    requires |labels| > 0
    requires forall j :: 0 <= j < |labels| ==> labels[j] < |keys|
    requires Distinct(keys)
    ensures var m := Aggregated(labels, keys, |keys|);
      |m| == |keys| &&
      (forall j :: 0 <= j < |keys| ==> keys[j] in m) &&
      Total(m, keys) == 100.0
  {
    var m := Aggregated(labels, keys, |keys|);
    AggregatedDistinct(labels, keys, |keys|);
    TotalOfShares(labels, m, keys, |keys|);
    assert keys[..|keys|] == keys;
    CountsCoverLabels(labels, |keys|);
    ShareOfAll(|labels|);
  }

  /** With one cluster every label is 0: a single entry, at 100 percent. */
  lemma OneClusterTakesAll(labels: seq<nat>, key: string)
    requires |labels| > 0
    requires forall j :: 0 <= j < |labels| ==> labels[j] < 1
    ensures Aggregated(labels, [key], 1) == map[key := 100.0]
  {
    CountsCoverLabels(labels, 1);
    assert SumCounts(labels, 1) == Count(labels, 0);
    ShareOfAll(|labels|);
  }

  // ---------------------------------------------------------------------
  // extract_colors

  /** What KMeans returns for k clusters over n pixels: one label below k per pixel, and k centres. */
  predicate IsClustering(n: nat, k: int, labels: seq<nat>, centroids: seq<Rgb>) {
    |labels| == n && |centroids| == k && forall j :: 0 <= j < |labels| ==> labels[j] < k
  }

  /** The keys of the dictionary are the hex codes of the centres, each a well-formed `#RRGGBB`. */
  lemma DictionaryKeys(labels: seq<nat>, centroids: seq<Rgb>)
    requires |labels| > 0
    ensures var m := Aggregated(labels, Hexes(centroids), |centroids|);
      && |m| <= |centroids|
      && (forall key :: key in m <==> exists i :: 0 <= i < |centroids| && RgbToHex(centroids[i]) == key)
      && (forall key :: key in m ==> IsHexColor(key))
  {
    var keys := Hexes(centroids);
    AggregatedKeys(labels, keys, |centroids|);
    forall i | 0 <= i < |centroids|
      ensures keys[i] == RgbToHex(centroids[i]) && IsHexColor(keys[i])
    {
      HexesAt(centroids, i);
      RgbToHexDigits(centroids[i]);
    }
  }

  /** No later centre has the same colour as centre i. */
  predicate IsLastCentre(centroids: seq<Rgb>, i: nat)
    requires i < |centroids|
  {
    forall j :: i < j < |centroids| ==> centroids[j] != centroids[i]
  }

  /**
   * Under the hex code of a centre the dictionary holds the share of the
   * last cluster whose centre has that colour.
   */
  lemma DictionaryLastWins(labels: seq<nat>, centroids: seq<Rgb>, i: nat)
    requires |labels| > 0 && i < |centroids|
    requires IsLastCentre(centroids, i)
    ensures var m := Aggregated(labels, Hexes(centroids), |centroids|);
      RgbToHex(centroids[i]) in m && m[RgbToHex(centroids[i])] == Share(Count(labels, i), |labels|)
  {
    var keys := Hexes(centroids);
    forall j | i < j < |centroids|
      ensures keys[j] != keys[i]
    {
      HexesAt(centroids, i);
      HexesAt(centroids, j);
      RgbToHexInjective(centroids[i], centroids[j]);
    }
    AggregatedLastWins(labels, keys, |centroids|, i);
    HexesAt(centroids, i);
  }

  /**
   * The loop of `extract_colors`: for each cluster i in order, count its
   * labels and write its share under the hex code of its centre.
   */
  method Aggregate(labels: seq<nat>, centroids: seq<Rgb>) returns (colors: map<string, real>)
    requires |labels| > 0
    ensures colors == Aggregated(labels, Hexes(centroids), |centroids|)
  {
    ghost var keys := Hexes(centroids);
    colors := map[];
    var i := 0;
    while i < |centroids|
      invariant 0 <= i <= |centroids|
      invariant colors == Aggregated(labels, keys, i)
    {
      var j := Count(labels, i);
      HexesAt(centroids, i);
      colors := colors[RgbToHex(centroids[i]) := Share(j, |labels|)];
      i := i + 1;
    }
  }

  /**
   * `extract_colors`, with `labels` and `centroids` standing for what KMeans
   * returns for the clamped cluster count `k`. Returns `k` and the
   * dictionary, or the error KMeans raises when `k` is below one.
   */
  method ExtractColors(rows: seq<seq<Rgb>>, numberOfClusters: int, labels: seq<nat>, centroids: seq<Rgb>)
    returns (k: int, colors: Result<map<string, real>>)
    requires var pixels := Flatten(rows);
      var clamped := Min(numberOfClusters, |UniqueColors(pixels)|);
      clamped >= 1 ==> IsClustering(|pixels|, clamped, labels, centroids)
    ensures k == Min(numberOfClusters, |UniqueColors(Flatten(rows))|)
    ensures k <= |UniqueColors(Flatten(rows))| && k <= |Flatten(rows)|
    ensures numberOfClusters <= |UniqueColors(Flatten(rows))| ==> k == numberOfClusters
    ensures colors.Err? <==> k < 1
    ensures |Flatten(rows)| > 0 && numberOfClusters >= 1 ==> colors.Ok?
    ensures colors.Ok? ==> 1 <= k <= |labels| && k == |centroids|
    ensures colors.Ok? ==> colors.value == Aggregated(labels, Hexes(centroids), k) && |colors.value| <= k
    ensures colors.Ok? ==> forall key :: key in colors.value ==>
      IsHexColor(key) && exists i :: 0 <= i < k && RgbToHex(centroids[i]) == key
  {
    var pixels := Flatten(rows);
    UniqueCountBounds(pixels);
    var uniqueCount := |UniqueColors(pixels)|;
    k := numberOfClusters;
    if uniqueCount < k {
      k := uniqueCount;
    }
    if k < 1 {
      return k, Err(InvalidClusterCount);
    }
    var m := Aggregate(labels, centroids);
    DictionaryKeys(labels, centroids);
    colors := Ok(m);
  }

  /**
   * The two-colour 2x2 image red, red, green, green has two distinct
   * colours, so asking for 2 clusters or more (5, say) clamps to 2.
   */
  lemma TwoColorClamp(numberOfClusters: int)
    requires numberOfClusters >= 2
    ensures var red, green := Rgb(255, 0, 0), Rgb(0, 255, 0);
      Min(numberOfClusters, |UniqueColors(Flatten([[red, red], [green, green]]))|) == 2
  {
    var red, green := Rgb(255, 0, 0), Rgb(0, 255, 0);
    var rows := [[red, red], [green, green]];
    var rest := rows[1..];
    assert rest == [[green, green]];
    assert rest[1..] == [];
    assert Flatten(rest) == [green, green] + Flatten([]);
    var pixels := Flatten(rows);
    assert pixels == [red, red] + [green, green];
    assert UniqueColors(pixels) == {red, green};
  }

  /**
   * With KMeans' labels 0, 0, 1, 1 and the two colours as centres, the result
   * is #FF0000 and #00FF00 at 50 percent each.
   */
  lemma TwoColorDictionary()
    ensures Aggregated([0, 0, 1, 1], Hexes([Rgb(255, 0, 0), Rgb(0, 255, 0)]), 2)
      == map["#FF0000" := 50.0, "#00FF00" := 50.0]
  {
    var red, green := Rgb(255, 0, 0), Rgb(0, 255, 0);
    var keys := Hexes([red, green]);
    HexesAt([red, green], 0);
    HexesAt([red, green], 1);
    RgbToHexDigits(red);
    RgbToHexDigits(green);
    assert HexDigit(15) == 'F' && HexDigit(0) == '0';
    assert keys[0] == "#FF0000";
    assert keys[1] == "#00FF00";
    var labels: seq<nat> := [0, 0, 1, 1];
    assert Count(labels, 0) == 2 by { assert multiset(labels)[0] == 2; }
    assert Count(labels, 1) == 2 by { assert multiset(labels)[1] == 2; }
  }
}
