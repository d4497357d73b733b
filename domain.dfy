/** The persisted sample and the small wrapper types shared by the other modules. */
module Domain {

  /** Java's `null`-or-value, as `Optional` and nullable references use it. */
  datatype Option<+T> = None | Some(value: T)

  /** A latitude or longitude: the bit pattern of a Java `double`. The engine
      only stores and returns coordinates, it never computes with them. */
  type Coord = bv64

  /** `LocationData`: one geolocation sample of entity `id` taken at
      `updateTimeEpoch` (milliseconds). `getKey()` is the id, `getSecondKey()`
      the timestamp. */
  datatype LocationData = LocationData(id: string, updateTimeEpoch: int, latitude: Coord, longitude: Coord)
  {
    function Key(): string { id }
    function SecondKey(): int { updateTimeEpoch }
  }
}
