/**
 * The string key `"x,y"` under which the parser files each die, and the way the
 * upload route splits it back into numbers. The rest of the model keys dies by
 * the pair `(x, y)` itself; the two lemmas here are why that is faithful: the
 * key is read back as the pair it was made from, and distinct pairs never share
 * a key.
 */
module CoordKey {
  import opened Common
  import opened JsText

  /** `${x},${y}`. */
  function Key(x: nat, y: nat): string
  {
    Decimal(x) + "," + Decimal(y)
  }

  /** A non-empty run of decimal digits, the only text `Number` is applied to here. */
  predicate IsDecimalText(s: string)
  {
    |s| > 0 && forall i :: 0 <= i < |s| ==> '0' <= s[i] <= '9'
  }

  /**
   * `const [x, y] = key.split(',').map(Number)` for keys whose first two parts are
   * decimal digits; any other key gives `None`, standing for NaN coordinates.
   */
  function ParseKey(key: string): Option<(nat, nat)>
  {
    var parts := Split(key, ',');
    if |parts| >= 2 && IsDecimalText(parts[0]) && IsDecimalText(parts[1]) then
      Some((DigitsValue(parts[0], 10), DigitsValue(parts[1], 10)))
    else
      None
  }

  /** The upload route recovers exactly the coordinates the parser put into the key. */
  lemma KeyRoundTrip(x: nat, y: nat)
    ensures ParseKey(Key(x, y)) == Some((x, y))
  {
    var dx, dy := Decimal(x), Decimal(y);
    assert ',' !in dx by {
      forall i | 0 <= i < |dx| ensures dx[i] != ',' { assert '0' <= dx[i] <= '9'; }
    }
    assert ',' !in dy by {
      forall i | 0 <= i < |dy| ensures dy[i] != ',' { assert '0' <= dy[i] <= '9'; }
    }
    assert Key(x, y) == dx + [','] + dy;
    SplitAtFirst(dx, ',', dy);
    SplitWithoutSeparator(dy, ',');
    DecimalValue(x);
    DecimalValue(y);
  }

  /** Two dies never share a key, so a string-keyed die map holds the same entries as a pair-keyed one. */
  lemma KeyInjective(a: (nat, nat), b: (nat, nat))
    requires Key(a.0, a.1) == Key(b.0, b.1)
    ensures a == b
  {
    KeyRoundTrip(a.0, a.1);
    KeyRoundTrip(b.0, b.1);
  }
}
