/** The paths trade_buckets.py writes, seen by the marker test of retention.py. */
module RetentionBuckets {
  import opened Common
  import opened Strings
  import opened Retention

  function Part(key: string, value: string): string {
    "/" + key + "=" + value
  }

  /** The output path of the bucket builder under the data root; `seconds` is "1", "5" or "60". */
  function BucketPath(root: string, exchange: string, marketType: string, instrument: string, date: string,
                      seconds: string, checksum: string): string {
    root + "/derived/trade_bucket/v1" + Part("exchange", exchange) + Part("market_type", marketType)
    + Part("instrument_id", instrument) + Part("date", date) + Part("bucket", seconds + "s")
    + ("/part-" + checksum + ".parquet")
  }

  /** No key ending in `y` is set anywhere: both markers set the key `granularity`. */
  predicate KeyFree(s: string) {
    forall i :: 0 < i < |s| ==> !(s[i] == '=' && s[i - 1] == 'y')
  }

  lemma MarkerSetsKey(path: string, part: string)
    requires |part| > 11 && part[10] == 'y' && part[11] == '=' && HasSubstring(path, part)
    ensures !KeyFree(path)
  {
    var i: nat :| i <= |path| && OccursAt(path, part, i);
    assert path[i..i + |part|][10] == path[i + 10] && path[i..i + |part|][11] == path[i + 11];
    assert path[i + 11] == '=' && path[i + 11 - 1] == 'y';
  }

  lemma KeyFreeIsUnmarked(path: string)
    requires KeyFree(path)
    ensures !Marked(path)
  {
    if HasSubstring(path, "granularity=1s") {
      MarkerSetsKey(path, "granularity=1s");
    }
    if HasSubstring(path, "granularity=5s") {
      MarkerSetsKey(path, "granularity=5s");
    }
  }

  lemma HeadIsFree(root: string)
    requires KeyFree(root)
    ensures KeyFree(root + "/derived/trade_bucket/v1")
  {
  }

  lemma PartsAreFree(exchange: string, marketType: string, instrument: string, date: string, seconds: string)
    requires KeyFree(exchange) && KeyFree(marketType) && KeyFree(instrument) && KeyFree(date) && KeyFree(seconds + "s")
    ensures KeyFree(Part("exchange", exchange)) && KeyFree(Part("market_type", marketType))
    ensures KeyFree(Part("instrument_id", instrument)) && KeyFree(Part("date", date))
        && KeyFree(Part("bucket", seconds + "s"))
  {
  }

  /** The builder's own paths carry neither marker, unless a text put into them does set a key ending in `y`. */
  lemma BucketPathIsUnmarked(root: string, exchange: string, marketType: string, instrument: string, date: string,
                             seconds: string, checksum: string)
    requires KeyFree(root) && KeyFree(exchange) && KeyFree(marketType) && KeyFree(instrument) && KeyFree(date)
    requires KeyFree(seconds + "s") && KeyFree(checksum)
    ensures !Marked(BucketPath(root, exchange, marketType, instrument, date, seconds, checksum))
  {
    HeadIsFree(root);
    PartsAreFree(exchange, marketType, instrument, date, seconds);
    var p0 := root + "/derived/trade_bucket/v1";
    var p1 := p0 + Part("exchange", exchange);
    var p2 := p1 + Part("market_type", marketType);
    var p3 := p2 + Part("instrument_id", instrument);
    var p4 := p3 + Part("date", date);
    var p5 := p4 + Part("bucket", seconds + "s");
    KeyFreeIsUnmarked(BucketPath(root, exchange, marketType, instrument, date, seconds, checksum));
  }

  /** Main result: no run ever deletes what the bucket builder writes, however old. */
  lemma BuilderBucketsAreKept(files: seq<Artifact>, s: Setting, root: string, exchange: string, marketType: string,
                              instrument: string, date: string, seconds: string, checksum: string, name: string,
                              age: Option<int>, locked: bool)
    requires KeyFree(root) && KeyFree(exchange) && KeyFree(marketType) && KeyFree(instrument) && KeyFree(date)
    requires KeyFree(seconds + "s") && KeyFree(checksum)
    ensures var path := BucketPath(root, exchange, marketType, instrument, date, seconds, checksum);
            var bucket := Scanned(TradeBucket, path, name, age, locked);
            bucket !in Deleted(files, s) && (bucket in files ==> bucket in Kept(files, s))
  {
    BucketPathIsUnmarked(root, exchange, marketType, instrument, date, seconds, checksum);
    var path := BucketPath(root, exchange, marketType, instrument, date, seconds, checksum);
    DeletedExactly(files, s, Scanned(TradeBucket, path, name, age, locked));
  }

  /** One such path: a second bucket of BTCUSDT on Binance spot. */
  lemma SecondBucketIsUnmarked()
    ensures !Marked(BucketPath("/data", "binance", "spot", "binance:spot:BTCUSDT", "2024-01-02", "1",
        "0123456789abcdef"))
  {
    assert "1" + "s" == "1s";
    BucketPathIsUnmarked("/data", "binance", "spot", "binance:spot:BTCUSDT", "2024-01-02", "1", "0123456789abcdef");
  }
}
