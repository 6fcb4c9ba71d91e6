/** Tile naming and fetch order: from a screenshot's name and its declared grid
    shape, the file of every tile and the order in which the image provider is
    asked for them (the nested `Array` initialisers in `uploadAndroidImages`). */
module Tiles {
  import opened Common
  import opened Stitch

  // ---------------------------------------------------------------------------
  // Decimal rendering of an index, as a Kotlin string template prints an Int
  // ---------------------------------------------------------------------------

  predicate IsDigit(ch: char) {
    '0' <= ch <= '9'
  }

  function DigitChar(d: nat): (ch: char)
    requires d < 10
    ensures IsDigit(ch)
  {
    "0123456789"[d]
  }

  function DigitValue(ch: char): (d: nat)
    requires IsDigit(ch)
    ensures d < 10
  {
    (ch as int) - ('0' as int)
  }

  /** `n` in base ten, most significant digit first, without leading zeros. */
  function Decimal(n: nat): (s: string)
    ensures |s| >= 1 && forall i :: 0 <= i < |s| ==> IsDigit(s[i])
    ensures s[0] == '0' ==> n == 0
  {
    if n < 10 then [DigitChar(n)] else Decimal(n / 10) + [DigitChar(n % 10)]
  }

  /** Reads a string of digits back as a number. */
  function ParseDecimal(s: string): nat
    requires forall i :: 0 <= i < |s| ==> IsDigit(s[i])
  {
    if s == [] then 0 else 10 * ParseDecimal(s[..|s| - 1]) + DigitValue(s[|s| - 1])
  }

  /** Reading back what `Decimal` printed gives the number again. */
  lemma {:induction false} DecimalRoundTrip(n: nat)
    ensures ParseDecimal(Decimal(n)) == n
  {
    var s := Decimal(n);
    if n < 10 {
      assert s[..|s| - 1] == [];
    } else {
      assert s[..|s| - 1] == Decimal(n / 10);
      DecimalRoundTrip(n / 10);
    }
  }

  /** Distinct indices print differently. */
  lemma DecimalInjective(a: nat, b: nat)
    requires Decimal(a) == Decimal(b)
    ensures a == b
  {
    DecimalRoundTrip(a);
    DecimalRoundTrip(b);
  }

  // ---------------------------------------------------------------------------
  // Tile names
  // ---------------------------------------------------------------------------

  /** The file of the tile in row `h`, column `w`: the first tile is
      `<name>.png`, every other one `<name>_<w>_<h>.png`, column index first. */
  function TileName(name: string, w: nat, h: nat): string {
    if h == 0 && w == 0 then name + ".png"
    else name + "_" + Decimal(w) + "_" + Decimal(h) + ".png"
  }

  /** Every tile file starts with the screenshot's name and ends in `.png`. */
  lemma TileNameShape(name: string, w: nat, h: nat)
    ensures name <= TileName(name, w, h)
    ensures |name| + 4 <= |TileName(name, w, h)|
    ensures TileName(name, w, h)[|TileName(name, w, h)| - 4..] == ".png"
  {
  }

  /** The index of the first `_` in `s`, or `|s|` when there is none. */
  function UnderscoreIndex(s: string): (i: nat)
    ensures i <= |s|
  {
    if s == [] || s[0] == '_' then 0 else 1 + UnderscoreIndex(s[1..])
  }

  /** In a digit string followed by `_`, the first `_` is the one after the digits. */
  lemma {:induction false} UnderscoreAfterDigits(a: string, b: string)
    requires forall i :: 0 <= i < |a| ==> IsDigit(a[i])
    ensures UnderscoreIndex(a + "_" + b) == |a|
  {
    if a != [] {
      assert (a + "_" + b)[1..] == a[1..] + "_" + b;
      UnderscoreAfterDigits(a[1..], b);
    }
  }

  /** Two digit strings joined by `_` split back into the same two strings. */
  lemma SplitAtUnderscore(a1: string, b1: string, a2: string, b2: string)
    requires forall i :: 0 <= i < |a1| ==> IsDigit(a1[i])
    requires forall i :: 0 <= i < |a2| ==> IsDigit(a2[i])
    requires a1 + "_" + b1 == a2 + "_" + b2
    ensures a1 == a2 && b1 == b2
  {
    var s1, s2 := a1 + "_" + b1, a2 + "_" + b2;
    UnderscoreAfterDigits(a1, b1);
    UnderscoreAfterDigits(a2, b2);
    assert |a1| == |a2|;
    assert a1 == s1[..|a1|] == s2[..|a2|] == a2;
    assert b1 == s1[|a1| + 1..] == s2[|a2| + 1..] == b2;
  }

  /** The character right after the screenshot's name tells the first tile
      (`.png`) from the others (`_<w>_<h>.png`). */
  lemma CharAfterName(name: string, w: nat, h: nat)
    ensures |TileName(name, w, h)| > |name|
    ensures TileName(name, w, h)[|name|] == if h == 0 && w == 0 then '.' else '_'
  {
  }

  /** Every grid position reads its own file: distinct positions have distinct
      names. */
  lemma TileNamesDistinct(name: string, w1: nat, h1: nat, w2: nat, h2: nat)
    requires TileName(name, w1, h1) == TileName(name, w2, h2)
    ensures w1 == w2 && h1 == h2
  {
    var n1, n2 := TileName(name, w1, h1), TileName(name, w2, h2);
    CharAfterName(name, w1, h1);
    CharAfterName(name, w2, h2);
    if !(h1 == 0 && w1 == 0) {
      var t1 := Decimal(w1) + "_" + Decimal(h1);
      var t2 := Decimal(w2) + "_" + Decimal(h2);
      assert n1 == name + "_" + t1 + ".png";
      assert n2 == name + "_" + t2 + ".png";
      assert t1 == n1[|name| + 1..|n1| - 4];
      assert t2 == n2[|name| + 1..|n2| - 4];
      SplitAtUnderscore(Decimal(w1), Decimal(h1), Decimal(w2), Decimal(h2));
      DecimalInjective(w1, w2);
      DecimalInjective(h1, h2);
    }
  }

  /** The names of the `th` by `tw` tile grid, row by row: row `h`, column `w`
      is `TileName(name, w, h)`. */
  function NameGrid(name: string, tw: nat, th: nat): (g: seq<seq<string>>)
    ensures |g| == th
    ensures forall h :: 0 <= h < th ==> |g[h]| == tw
    ensures forall h, w :: 0 <= h < th && 0 <= w < tw ==> g[h][w] == TileName(name, w, h)
  {
    seq(th, h requires 0 <= h < th => seq(tw, w requires 0 <= w < tw => TileName(name, w, h)))
  }

  /** The rows of a grid laid end to end. */
  function Flatten<T>(g: seq<seq<T>>): seq<T>
  {
    if g == [] then [] else g[0] + Flatten(g[1..])
  }

  /** Every row of `g` has `n` entries. */
  predicate Uniform<T>(g: seq<seq<T>>, n: nat)
  {
    forall h :: 0 <= h < |g| ==> |g[h]| == n
  }

  /** `(a + 1) * n` written out, so that the index arithmetic below stays linear. */
  lemma MulSucc(a: nat, n: nat)
    ensures (a + 1) * n == n + a * n
  {
  }

  /** A grid of `|g|` rows of `n` entries flattens to `|g| * n` entries. */
  lemma {:induction false} FlattenLength<T>(g: seq<seq<T>>, n: nat)
    requires Uniform(g, n)
    ensures |Flatten(g)| == |g| * n
  {
    if g != [] {
      assert Uniform(g[1..], n) by {
        forall h | 0 <= h < |g[1..]| ensures |g[1..][h]| == n {
          assert g[1..][h] == g[h + 1];
        }
      }
      FlattenLength(g[1..], n);
      MulSucc(|g| - 1, n);
    }
  }

  /** Row-major layout: entry `(h, w)` of the grid sits at `h * n + w` once
      flattened. */
  lemma {:induction false} FlattenAt<T>(g: seq<seq<T>>, n: nat, h: nat, w: nat)
    requires Uniform(g, n) && h < |g| && w < n
    ensures h * n + w < |Flatten(g)| && Flatten(g)[h * n + w] == g[h][w]
  {
    FlattenLength(g, n);
    var tail := g[1..];
    assert Uniform(tail, n) by {
      forall k | 0 <= k < |tail| ensures |tail[k]| == n {
        assert tail[k] == g[k + 1];
      }
    }
    FlattenLength(tail, n);
    assert Flatten(g) == g[0] + Flatten(tail);
    if h > 0 {
      FlattenAt(tail, n, h - 1, w);
      MulSucc(h - 1, n);
      assert tail[h - 1] == g[h];
    }
  }

  /** The order in which the tiles are requested: row-major, every column of a
      row before the next row. */
  function FetchOrder(name: string, tw: nat, th: nat): (names: seq<string>)
  {
    Flatten(NameGrid(name, tw, th))
  }

  /** Exactly `tile_height` rows of `tile_width` names are requested. */
  lemma FetchOrderLength(name: string, tw: nat, th: nat)
    ensures |FetchOrder(name, tw, th)| == th * tw
  {
    FlattenLength(NameGrid(name, tw, th), tw);
  }

  /** The tile at column `w` of row `h` is the `(h * tw + w)`-th request. */
  lemma FetchOrderAt(name: string, tw: nat, th: nat, w: nat, h: nat)
    requires h < th && w < tw
    ensures h * tw + w < |FetchOrder(name, tw, th)|
    ensures FetchOrder(name, tw, th)[h * tw + w] == TileName(name, w, h)
  {
    FlattenAt(NameGrid(name, tw, th), tw, h, w);
  }

  /** Conversely, every request of the fetch order is a tile: the `i`-th is
      the one at column `i % tw` of row `i / tw`. */
  lemma FetchOrderEntry(name: string, tw: nat, th: nat, i: nat)
    requires i < |FetchOrder(name, tw, th)|
    ensures 0 < tw && i / tw < th
    ensures FetchOrder(name, tw, th)[i] == TileName(name, i % tw, i / tw)
  {
    FetchOrderLength(name, tw, th);
    var h, w := i / tw, i % tw;
    assert i == h * tw + w;
    if h >= th {
      MulMonotone(th, h, tw);
    }
    FetchOrderAt(name, tw, th, w, h);
  }

  lemma MulMonotone(a: nat, b: nat, n: nat)
    requires a <= b
    ensures a * n <= b * n
  {
  }

  /** The worked example: a 2x2 screenshot named `login`. */
  lemma LoginFetchOrder()
    ensures FetchOrder("login", 2, 2) ==
            ["login.png", "login_1_0.png", "login_0_1.png", "login_1_1.png"]
  {
    assert Decimal(0) == "0" && Decimal(1) == "1";
    assert TileName("login", 0, 0) == "login.png";
    assert TileName("login", 1, 0) == "login_1_0.png";
    assert TileName("login", 0, 1) == "login_0_1.png";
    assert TileName("login", 1, 1) == "login_1_1.png";
    var g := NameGrid("login", 2, 2);
    assert g[0] == ["login.png", "login_1_0.png"];
    assert g[1] == ["login_0_1.png", "login_1_1.png"];
    assert g[2..] == [];
    assert Flatten(g) == g[0] + Flatten(g[1..]);
    assert Flatten(g[1..]) == g[1] + Flatten(g[2..]);
  }

  // ---------------------------------------------------------------------------
  // Fetching the tiles from the image provider
  // ---------------------------------------------------------------------------

  /** An image provider (a directory or a zip archive): the tiles it can decode,
      by file name. A name it lacks is one `getImage` fails on. */
  type Provider = map<string, Image>

  /** The index of the first file the provider cannot serve, or `|files|` when
      it can serve them all. */
  function FirstAbsent(p: Provider, files: seq<string>): (i: nat)
    ensures i <= |files|
    ensures forall j :: 0 <= j < i ==> files[j] in p
    ensures i < |files| ==> files[i] !in p
  {
    if files == [] || files[0] !in p then 0 else 1 + FirstAbsent(p, files[1..])
  }

  /** `FirstAbsent` is pinned down by its two properties. */
  lemma FirstAbsentUnique(p: Provider, files: seq<string>, i: nat)
    requires i <= |files| && forall j :: 0 <= j < i ==> files[j] in p
    requires i < |files| ==> files[i] !in p
    ensures FirstAbsent(p, files) == i
  {
  }

  /** The first file missing from `a + b` is the first missing from `a`, or, when
      `a` is complete, the first missing from `b`. */
  lemma FirstAbsentConcat(p: Provider, a: seq<string>, b: seq<string>)
    ensures FirstAbsent(p, a + b) ==
            if FirstAbsent(p, a) < |a| then FirstAbsent(p, a) else |a| + FirstAbsent(p, b)
  {
    var ia, ib, ab := FirstAbsent(p, a), FirstAbsent(p, b), a + b;
    assert forall j :: 0 <= j < |a| ==> ab[j] == a[j];
    if ia < |a| {
      FirstAbsentUnique(p, ab, ia);
    } else {
      assert forall j :: |a| <= j < |ab| ==> ab[j] == b[j - |a|];
      FirstAbsentUnique(p, ab, |a| + ib);
    }
  }

  /** `Array(files.size) { k -> imageProvider.getImage(files[k]) }`: the files
      are read in order and the first one the provider cannot serve aborts. The
      result holds the provider's image of each file when all are there. */
  function FetchEach(p: Provider, files: seq<string>): (r: Result<seq<Image>>)
    ensures r.Ok? <==> FirstAbsent(p, files) == |files|
    ensures r.Ok? ==> |r.value| == |files| &&
                      forall k :: 0 <= k < |files| ==> files[k] in p && r.value[k] == p[files[k]]
    ensures r.Err? ==> r.error == TileUnreadable(files[FirstAbsent(p, files)])
  {
    if files == [] then Ok([])
    else if files[0] !in p then Err(TileUnreadable(files[0]))
    else match FetchEach(p, files[1..])
      case Ok(rest) => Ok([p[files[0]]] + rest)
      case Err(e) => Err(e)
  }

  /** The outer initialiser `Array(tile_height) { h -> ... }` over a grid of
      file names: the rows are fetched top to bottom, each one left to right,
      and the first row that fails aborts the rest. When all succeed, row `i`
      holds the provider's images of row `i`'s names. */
  function FetchGrid(p: Provider, g: seq<seq<string>>): (r: Result<seq<seq<Image>>>)
    ensures r.Ok? ==> |r.value| == |g| &&
                      forall i :: 0 <= i < |g| ==> FetchEach(p, g[i]) == Ok(r.value[i])
  {
    if g == [] then Ok([])
    else
      match FetchEach(p, g[0])
      case Err(e) => Err(e)
      case Ok(cells) =>
        match FetchGrid(p, g[1..])
        case Ok(rest) =>
          assert forall i :: 1 <= i < |g| ==> g[i] == g[1..][i - 1] && ([cells] + rest)[i] == rest[i - 1];
          Ok([cells] + rest)
        case Err(e) => Err(e)
  }

  /** Fetching a grid fails exactly on the first name, in row-major order, that
      the provider cannot serve, and succeeds when it can serve them all. */
  lemma {:induction false} FetchGridOutcome(p: Provider, g: seq<seq<string>>)
    ensures var order := Flatten(g);
            var i := FirstAbsent(p, order);
            if i < |order| then FetchGrid(p, g) == Err(TileUnreadable(order[i]))
            else FetchGrid(p, g).Ok?
  {
    if g != [] {
      var row, later := g[0], Flatten(g[1..]);
      FirstAbsentConcat(p, row, later);
      FetchGridOutcome(p, g[1..]);
      var ia := FirstAbsent(p, row);
      if ia < |row| {
        assert (row + later)[ia] == row[ia];
      } else {
        var ib := FirstAbsent(p, later);
        if ib < |later| {
          assert (row + later)[|row| + ib] == later[ib];
        }
      }
    }
  }

  /** The tiles of a screenshot: its name grid fetched from the provider. */
  function FetchTiles(p: Provider, name: string, tw: nat, th: nat): Result<seq<seq<Image>>>
  {
    FetchGrid(p, NameGrid(name, tw, th))
  }

  /** Fetching a grid of `n`-wide rows fails exactly when one of its names is
      missing from the provider. */
  lemma GridFetchFails(p: Provider, g: seq<seq<string>>, n: nat)
    requires Uniform(g, n)
    ensures FetchGrid(p, g).Err? <==> exists h, w :: 0 <= h < |g| && 0 <= w < n && g[h][w] !in p
  {
  }

  /** Fetching the tiles fails exactly when some tile is missing. */
  lemma FetchTilesFails(p: Provider, name: string, tw: nat, th: nat)
    ensures FetchTiles(p, name, tw, th).Err? <==>
            exists w, h :: 0 <= w < tw && 0 <= h < th && TileName(name, w, h) !in p
  {
    var g := NameGrid(name, tw, th);
    GridFetchFails(p, g, tw);
    if FetchGrid(p, g).Err? {
      var h, w :| 0 <= h < |g| && 0 <= w < tw && g[h][w] !in p;
      assert TileName(name, w, h) !in p;
    } else {
      forall w, h | 0 <= w < tw && 0 <= h < th ensures TileName(name, w, h) in p {
        assert g[h][w] in p;
      }
    }
  }

  /** A failed fetch names the first missing tile in fetch order. */
  lemma FetchTilesFirstMissing(p: Provider, name: string, tw: nat, th: nat)
    ensures var order := FetchOrder(name, tw, th);
            var i := FirstAbsent(p, order);
            FetchTiles(p, name, tw, th).Err? ==>
              i < |order| && FetchTiles(p, name, tw, th).error == TileUnreadable(order[i])
  {
    FetchGridOutcome(p, NameGrid(name, tw, th));
  }

  /** When every tile is there, the tile at row `h`, column `w` of the fetched
      grid is the provider's image of `TileName(name, w, h)`. */
  lemma FetchedTile(p: Provider, name: string, tw: nat, th: nat, w: nat, h: nat)
    requires FetchTiles(p, name, tw, th).Ok? && h < th && w < tw
    ensures |FetchTiles(p, name, tw, th).value| == th
    ensures |FetchTiles(p, name, tw, th).value[h]| == tw
    ensures TileName(name, w, h) in p &&
            FetchTiles(p, name, tw, th).value[h][w] == p[TileName(name, w, h)]
  {
  }
}
