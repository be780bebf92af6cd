/** The constants of the guard's configuration that its decision logic reads. */
module Config {
  /** Seconds between two face-recognition passes of the monitoring loop. */
  const FaceRecognitionInterval: real := 2.0
  /** Confirmed unknown detections before the guard starts talking. */
  const UnknownThreshold: nat := 3
  /** Escalation level at which the siren sounds. */
  const MaxEscalationLevel: nat := 3
}
