/** The configuration document of config/config.go after JSON decoding, and
    the defaults New writes into it. Reading the file and decoding the JSON
    are foreign and arrive here as a `Result`. */
module Config {
  import opened Wrappers
  import opened GoInt

  /** One configured camera: its serial (the identity substituted into the
      output path) and its RTSP URL. */
  datatype Camera = Camera(sn: string, url: string)

  /** `cameraSize` is the capture interval in seconds; `savePath` is the
      output path template, in whose base name "sn" stands for the serial. */
  datatype Config = Config(cameraSize: Int64, savePath: string, cameras: seq<Camera>)

  const DefaultCameraSize: Int64 := 3
  const DefaultSavePath: string := "./camera/camera-sn.png"

  /** The decoded configuration with its two defaults filled in. */
  function WithDefaults(c: Config): (r: Config)
    ensures r.cameraSize != 0 && r.savePath != ""
    ensures c.cameraSize == 0 ==> r.cameraSize == DefaultCameraSize
    ensures c.cameraSize != 0 ==> r.cameraSize == c.cameraSize
    ensures c.savePath == "" ==> r.savePath == DefaultSavePath
    ensures c.savePath != "" ==> r.savePath == c.savePath
    ensures r.cameras == c.cameras
  {
    Config(if c.cameraSize == 0 then DefaultCameraSize else c.cameraSize,
           if c.savePath == "" then DefaultSavePath else c.savePath,
           c.cameras)
  }

  /** New after the file has been read and decoded: a read or decode error is
      returned as it is; otherwise the defaults are written into the decoded
      record field by field. */
  method New(decoded: Result<Config, string>) returns (r: Result<Config, string>)
    ensures decoded.Err? ==> r == decoded
    ensures decoded.Ok? ==> r == Ok(WithDefaults(decoded.value))
  {
    if decoded.Err? {
      return decoded;
    }
    var config := decoded.value;
    if config.cameraSize == 0 {
      config := config.(cameraSize := DefaultCameraSize);
    }
    if config.savePath == "" {
      config := config.(savePath := DefaultSavePath);
    }
    return Ok(config);
  }

  /** Filling in the defaults a second time changes nothing. */
  lemma WithDefaultsIdempotent(c: Config)
    ensures WithDefaults(WithDefaults(c)) == WithDefaults(c)
  {
  }

  /** A configuration is left as it is exactly when it already has a non-zero
      interval and a non-empty output path. */
  lemma WithDefaultsFixedPoints(c: Config)
    ensures WithDefaults(c) == c <==> c.cameraSize != 0 && c.savePath != ""
  {
  }
}
