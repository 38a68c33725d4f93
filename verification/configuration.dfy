/**
 * The configuration value the segment view reads: item count, current
 * selection, geometry, the scrub scale factor and the mark's styling.
 */
module Configuration {

  import opened Geometry

  /** A UIColor given by hue, saturation, brightness and alpha. */
  datatype Color = Hsba(hue: real, saturation: real, brightness: real, alpha: real)

  datatype Config = Config(
    count: int,
    current: int,
    itemSize: Size,
    itemSpacing: real,
    itemOffset: real,
    itemScaleFactor: real,
    isShowMarkItem: bool,
    selectedMarkCornerRadius: real,
    selectedMarkColor: Color,
    selectedMarkOffsetY: real
  )

  const DefaultMarkColor := Hsba(163.0 / 360.0, 31.0 / 100.0, 18.0 / 100.0, 1.0)

  /**
   * The initializer: it stores exactly the given count and current index
   * (both defaulting to 0) and takes every other field from the property
   * defaults. No relation between `count` and `current` is demanded.
   */
  function Init(count: int := 0, current: int := 0): (c: Config)
    ensures c.count == count && c.current == current
    ensures c.itemSize == Size(50.0, 44.0)
    ensures c.itemSpacing == 16.0 && c.itemOffset == 18.0
    ensures c.itemScaleFactor == 1.0
    ensures c.isShowMarkItem && c.selectedMarkOffsetY == 0.0
    ensures c.selectedMarkCornerRadius == 8.0 && c.selectedMarkColor == DefaultMarkColor
  {
    Config(count, current, Size(50.0, 44.0), 16.0, 18.0, 1.0, true, 8.0, DefaultMarkColor, 0.0)
  }
}
