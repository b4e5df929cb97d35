/** The names of the condition context keys (pkg/iampolicy/conditions.go) and the
    context a request is evaluated under. */
module ContextKeys {
  import opened Bytes

  /** An absent key is distinct from one present with an empty value. */
  type ConditionKeys = map<bytes, bytes>

  const KeySourceIP: bytes := "aws:SourceIp"
  const KeyS3Prefix: bytes := "s3:prefix"
  const KeyS3MaxKeys: bytes := "s3:max-keys"
  const KeySecureTransport: bytes := "aws:SecureTransport"
  const KeyUsername: bytes := "aws:username"
  const KeyPrincipalAccount: bytes := "aws:PrincipalAccount"
  const KeyUserID: bytes := "aws:userid"
  const KeyPrincipalType: bytes := "aws:PrincipalType"
  const KeyPassedToService: bytes := "iam:PassedToService"
  const KeyCurrentTime: bytes := "aws:CurrentTime"
  const KeyEpochTime: bytes := "aws:EpochTime"

  /** `more` answers everything `less` does, the same way. */
  ghost predicate Extends(more: ConditionKeys, less: ConditionKeys) {
    forall k | k in less :: k in more && more[k] == less[k]
  }
}
