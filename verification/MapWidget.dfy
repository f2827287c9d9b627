/** The map widget's `centerpixel`, `getlatlon` and `getxy` commands on its own state. */
module MapWidget {
  import opened MapCoords

  class Widget {
    var view: View
    var xCenter: int
    var yCenter: int
    var lastX: int
    var lastY: int
    var latitudeString: string
    var longitudeString: string

    ghost predicate Valid()
      reads this
    {
      view.Valid()
    }

    constructor (view: View)
      requires view.Valid()
      ensures Valid() && this.view == view
    {
      this.view := view;
      xCenter, yCenter, lastX, lastY := 0, 0, 0, 0;
      latitudeString, longitudeString := "", "";
    }

    /**
     * `centerpixel`: moves the centre to a pixel; a negative argument leaves its axis alone.
     * The centre stays on the globe, the latitude string always reads back as the latitude,
     * and the longitude string does so only on whole tens of minutes.
     */
    method CenterPixel(x: int, y: int)
      requires Valid()
      modifies this
      ensures Valid()
      ensures xCenter == (if x >= 0 then x else old(xCenter)) && yCenter == (if y >= 0 then y else old(yCenter))
      ensures var moved := xCenter != old(lastX) || yCenter != old(lastY);
              && view.latitude == (if moved && y >= 0 then GetPixLat(old(view), y) else old(view.latitude))
              && view.longitude == (if moved && x >= 0 then GetPixLong(old(view), x) else old(view.longitude))
              && view == old(view).(latitude := view.latitude, longitude := view.longitude)
              && (if moved && y >= 0 then latitudeString == FormatCentreLat(view.latitude) && lastY == yCenter
                  else latitudeString == old(latitudeString) && lastY == old(lastY))
              && (if moved && x >= 0 then longitudeString == FormatCentre(view.longitude) && lastX == xCenter
                  else longitudeString == old(longitudeString) && lastX == old(lastX))
              && (moved && y >= 0 ==> Parse(latitudeString) == view.latitude)
              && (moved && x >= 0 ==>
                    (Parse(longitudeString) == view.longitude <==> Abs(view.longitude) % 3600 / 60 % 10 == 0))
    {
      hide GetPixLat, GetPixLong, Parse, Format, FormatCentre, FormatCentreLat;
      if x >= 0 {
        xCenter := x;
      }
      if y >= 0 {
        yCenter := y;
      }
      if xCenter != lastX || yCenter != lastY {
        LatitudeClamped(view, yCenter);
        LongitudeInRange(view, xCenter);
        if y >= 0 {
          view := view.(latitude := GetPixLat(view, yCenter));
          latitudeString := FormatCentreLat(view.latitude);
          CentreLatRoundTrip(view.latitude);
          lastY := yCenter;
        }
        if x >= 0 {
          SameMeridian(old(view), view, xCenter);
          view := view.(longitude := GetPixLong(view, xCenter));
          longitudeString := FormatCentre(view.longitude);
          CentreRoundTripIff(view.longitude);
          lastX := xCenter;
        }
      }
    }

    /** `getlatlon`: the coordinates of a pixel as text; the pixel replaces the stored centre pixel. */
    method GetLatLon(x: int, y: int) returns (lat: string, lon: string)
      requires Valid()
      modifies this`xCenter, this`yCenter, this`lastX, this`lastY
      ensures lastX == old(xCenter) && lastY == old(yCenter) && xCenter == x && yCenter == y
      ensures lat == Format(Lat, GetPixLat(view, y)) && lon == Format(Lon, GetPixLong(view, x))
      ensures Parse(lat) == GetPixLat(view, y) && Parse(lon) == GetPixLong(view, x)
    {
      hide GetPixLat, GetPixLong, Parse, Format;
      lastX, lastY := xCenter, yCenter;
      xCenter, yCenter := x, y;
      lat := Format(Lat, GetPixLat(view, yCenter));
      lon := Format(Lon, GetPixLong(view, xCenter));
      LatitudeClamped(view, y);
      LongitudeInRange(view, x);
      FormatRoundTrip(Lat, GetPixLat(view, y));
      FormatRoundTrip(Lon, GetPixLong(view, x));
    }

    /** `getxy`, on a widget whose drawn area has been set up. */
    method GetPixel(lat: string, lon: string) returns (p: Pixel)
      requires Valid()
      ensures p == GetXY(view, Parse(lat), Parse(lon))
    {
      p := GetXY(view, Parse(lat), Parse(lon));
    }

    /** The whole trip: pixel, two strings, pixel. */
    method ThroughText(x: int, y: int) returns (p: Pixel)
      requires Valid()
      requires -HSPAN < Quot(ADJPIX * (x - view.MidX()), view.xScale) < HSPAN && -QSPAN <= RawLat(view, y) <= QSPAN
      requires view.xmin <= Quot(ADJPIX * (x - view.MidX()), view.xScale) <= view.xmax
      requires view.ymin <= RawLat(view, y) - view.latitude <= view.ymax
      modifies this`xCenter, this`yCenter, this`lastX, this`lastY
      ensures p.At?
      ensures MovedIn(x, p.x, view.MidX(), Slack(view.xScale)) && MovedIn(y, p.y, view.MidY(), Slack(view.yScale))
    {
      hide GetPixLat, GetPixLong, Parse, GetXY, MovedIn, Format, Quot, RawLat;
      var lat, lon := GetLatLon(x, y);
      PixelRoundTrip(view, x, y);
      p := GetPixel(lat, lon);
    }
  }

  /** The centre's latitude string: degrees, minutes and seconds of its size, and a letter. */
  function FormatCentreLat(v: int): (s: string) {
    var size := Abs(v);
    Print(size / 3600, size % 3600 / 60, size % 3600 % 60, Letter(Lat, v >= 0))
  }

  lemma CentreLatRoundTrip(v: int)
    requires -QSPAN <= v <= QSPAN
    ensures Parse(FormatCentreLat(v)) == v
  {
    hide Parse, Print;
    var size := Abs(v);
    ParsePrint(size / 3600, size % 3600 / 60, size % 3600 % 60, Letter(Lat, v >= 0));
  }

  /** The longitude of a pixel does not depend on the latitude of the centre. */
  lemma SameMeridian(a: View, b: View, x: int)
    requires a.xScale > 0 && b == a.(latitude := b.latitude)
    ensures GetPixLong(a, x) == GetPixLong(b, x)
  {
  }
}
